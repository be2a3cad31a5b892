# Verified model of the DQ compiler's interface, initialisation and tooling protocols

The repository is a compiler for the DQ language, its parallel test runner, and a few source
and sysroot tools. This project models the parts of it that are protocols and transformations
in their own right, and proves what they are there for. The code that changes objects step by
step is modelled by classes and methods; each method is proved against a function on values,
and the properties are lemmas about those functions.

| file | what it models |
|---|---|
| `DqmBytes`, `DqmContainer` | little-endian integers, the checksum, the 32-byte header with two checksums |
| `DqmRecords`, `DqmIf` | the aligned record stream, string pairs, group skipping; the writer and the reader objects |
| `DqmLayout` | the bytes of files and records, field by field; what happens to data that is cut short |
| `DqmTypes` | type objects, named by creation index so that equal indices mean the same pointer; the lazily filled derived-type caches |
| `DqmTypeSpec`, `DqmTypeSpecIO` | the recursive type-spec grammar, written and read, on values and in place; type alias declarations |
| `DqmTypeLaws`, `DqmGrammar` | which types may be owned and which are written as a name, by paths of type objects; that the reader accepts nothing but specs |
| `Flattening`, `FlatteningDependencies`, `FlatteningShared`, `ModuleOrder` | the closure that decides what an interface embeds, the module dependencies it records, the depth-first module order |
| `EmbeddedModules`, `ExportGroups`, `InterfaceExports` | the embedded declarations and the export groups with their short form, written and read back; the whole way from the closure to the reader |
| `EmbeddedLaws`, `ExportLaws` | the order and the ids of these records, and exactly what a reader accepts |
| `ModuleInit`, `ModuleInitOrder` | the call list a module computes, stores and reads back, and what the generated initialisers do at start-up |
| `TestFileWorker`, `WorkerPool` | the worker's critical sections, and all interleavings of one distributor with any number of workers |
| `MigratorLexer`, `Migrator`, `MigratorRerun`, `MigratorTheorems` | the V1 to V2 source migrator, its loop, and a simulation between two runs of it |
| `MigratorTokens`, `MigratorOperands` | how a text is cut and what is written for each token, by the characters and positions alone |
| `PathText`, `Sysroot`, `SysrootTheorems` | path texts, the symlink resolver that takes the sysroot as "/", what it promises |
| `SysrootLaws` | which paths normalise, where links of each kind lead, chains of links, missing names |
| `SysrootRoots`, `SysrootLinks` | exactly which paths and links keep these promises; link rewriting |
| `AutoFree` | what the code generated for autofree slots does to the heap |
| `ModulePath` | resolving module uses, module ids, and the second source resolver |

These results differ from what the code or its comments suggest:

- `tools/dq_v1_to_v2.py:127` says that rerunning the migrator is safe. It is safe exactly when
  every `AND` and `=AND=` follows an operand (`MigratorTheorems.RerunIsSafeIff`); an `AND` in
  prefix position becomes `&` and then `%` (`MigratorTheorems.PrefixAndIsNotStable`). From the
  second run on nothing changes any more, whatever the source.
- A path or link target that starts with exactly two slashes keeps `//` as a component, because
  POSIX gives it its own root, so the sysroot resolver can return a result that is not made of
  names below the root, or that does not resolve again. It stays below the root exactly for the
  paths that normalise to names (`SysrootRoots.PathStaysIff`) and the targets that have no
  double slash or go up at once (`SysrootRoots.TargetStaysIff`); stability and congruence have
  their own conditions (`SysrootRoots.StableIff`, `SysrootRoots.CongruentIff`). For every
  other input a tree is built in which the property fails.
- Rewriting an absolute link target normalises it by name first. With a `..` behind a link that
  leads elsewhere (`SysrootLinks.RewrittenGoesElsewhere`). It leads the same way in every tree
  exactly when each `..` stands at the link's own directory or above it
  (`SysrootLinks.LeadsTheSameWayIff`).
- The writer does not check qualified type names: one with a zero byte in the module part, or an
  empty type name, does not come back (`DqmTypeSpec.SameTypeIff`,
  `DqmTypeSpec.AnotherTypeComesBack`). Module ids come from file paths and type names from
  identifiers, so nothing in the modelled files produces such a name.
- The flattening looks below each type once, on behalf of the module that comes first. A pointer
  type that two modules need (it is one shared object) is recorded as a dependency of the first
  only, and of none if the root comes first (`FlatteningShared.SharedWrapperIsMissed`), so the
  module order can put a module before one whose types it needs. Types needed directly are
  always recorded (`FlatteningDependencies.DirectReferencesAreRecorded`), and all are where
  nothing is shared (`FlatteningShared.DependenciesAreNeeds`).
- The two source resolvers agree on a module of the current package exactly when both module
  ids have more than one part or the root that is searched instead is the package root
  (`ModulePath.ResolversAgreeIff`, `ModulePath.ResolversDisagree`).

## Model

| member | source | states |
|---|---|---|
| DqmBytes.U64Codec | compiler/ast/dqm_if.cpp:42-60 | eight bytes read as `v` exactly when they are the little-endian bytes written for `v` |
| DqmBytes.Checksum | compiler/ast/dqm_if.cpp:155-163 | the loop computes the 64-bit sum of all bytes |
| DqmBytes.SumUpdate | compiler/ast/dqm_if.cpp:155-163 | changing one byte moves the sum by the difference of the two bytes |
| DqmContainer.HeaderIs | compiler/ast/dqm_if.h:30-45 | 32 bytes are a header for a payload exactly when its six fields have their values |
| DqmContainer.ReadInvertsWrite | compiler/ast/dqm_if.cpp:290-346 | reading succeeds with a payload if and only if the file is the one written for that payload |
| DqmContainer.PayloadSumNeverWraps | compiler/ast/dqm_if.cpp:236-245 | no payload the format can hold wraps the checksum |
| DqmContainer.OneChangedByteIsRejected | compiler/ast/dqm_if.cpp:318-341 | a written file with exactly one byte changed, header or payload, is rejected |
| DqmLayout.FileLayout | compiler/ast/dqm_if.cpp:165-212 | every byte of a file: magic, header size 32, version, length, the two sums in little-endian order, payload |
| DqmLayout.RecordLayout | compiler/ast/dqm_if.cpp:62-92 | every byte of a record: id, length, data, zeros up to the next multiple of four |
| DqmLayout.CutStreamIsRejected | compiler/ast/dqm_if.cpp:348-383 | a stream cut inside a record is an error there, and not the end of the stream |
| DqmRecords.ReadFramed | compiler/ast/dqm_if.cpp:348-383 | the record framed at an aligned position is read back, and the cursor moves to its end |
| DqmRecords.RemainingFramed | compiler/ast/dqm_if.cpp:348-383 | framed records are read back all, in order, and then the stream ends |
| DqmRecords.SkipStopsAtMatchingEnd | compiler/ast/dqm_if.cpp:479-504 | skipping a balanced group consumes its body and its own end record, whatever follows |
| DqmRecords.PairRoundTrip | compiler/ast/dqm_if.cpp:404-419 | a string pair comes back if and only if both strings are non-empty and the first holds no zero byte |
| DqmIf.DqmIfWriter.Fail | compiler/ast/dqm_if.cpp:28-35 | the first complaint is kept |
| DqmIf.DqmIfWriter.AddRec | compiler/ast/dqm_if.cpp:62-92 | succeeds exactly without an earlier error and within the size limit; appends one aligned frame, or nothing |
| DqmIf.DqmIfWriter.BuildFileData | compiler/ast/dqm_if.cpp:165-212 | produces the file of the payload, or fails and produces nothing |
| DqmIf.DqmIfReader.ReadFromData | compiler/ast/dqm_if.cpp:290-346 | succeeds exactly on the files the format accepts; payload, cursor and error afterwards |
| DqmIf.DqmIfReader.NextRec | compiler/ast/dqm_if.cpp:348-383 | takes the next record off the rest, the cursor strictly advances; on failure it stays and the first error is kept |
| DqmIf.DqmIfReader.ExpectEmpty | compiler/ast/dqm_if.cpp:385-396 | accepts exactly an empty record of the given kind |
| DqmIf.DqmIfReader.ReadStringPair | compiler/ast/dqm_if.cpp:404-419 | the scan for the zero byte finds the pair, or fails when either part is empty |
| DqmIf.DqmIfReader.ReadU32 | compiler/ast/dqm_if.cpp:431-439 | accepts exactly four bytes of data |
| DqmIf.DqmIfReader.SkipGroup | compiler/ast/dqm_if.cpp:479-504 | stops on the end record that closes the current group, or fails at the end of the stream |
| DqmIf.FileRoundTrip | compiler/ast/dqm_if.cpp:165-212 | records written to a file come back from it, in order |
| DqmTypes.TypeStore.GetDerived | compiler/ast/symbols.cpp:182-228 | returns the cached type, or creates it and fills exactly its own slot |
| DqmTypes.TypeStore.CanBeOwned | compiler/ast/module_intf.cpp:2075-2079 | follows aliases and ownership wrappers to an object or a pointer |
| DqmTypes.BuildFindsExisting | compiler/ast/symbols.cpp:182-228 | building the shape of an existing type finds that very object and creates none |
| DqmTypes.BuildHasShape | compiler/ast/symbols.cpp:182-228 | what is built has the shape asked for, and building again gives the same object |
| DqmTypeSpec.InnerRecsOfShape | compiler/ast/symbols.cpp:395-456 | the records written for a type depend on its shape alone, and each fits |
| DqmTypeSpec.WritableIff | compiler/ast/symbols.cpp:395-481 | exactly the types with a name, short enough arrays and fitting records are written |
| DqmTypeSpec.InnerRecsRead | compiler/ast/module_intf.cpp:1987-2095 | reading the records of a shape builds it, as its names are read, and stops on its last record, whatever follows |
| DqmTypeSpec.SpecIsReadAs | compiler/ast/module_intf.cpp:1891-1985 | the same for every written spec, in any process: named, grouped or qualified |
| DqmTypeSpec.AsReadIff | compiler/ast/dqm_if.cpp:104-110 | a shape is read as it was written if and only if its leaf is unqualified or a pair record can carry it |
| DqmTypeSpec.SameTypeComesBack | compiler/ast/module_intf.cpp:1891-2095 | where names still resolve, the identical type object comes back; it fails exactly when something unownable is owned |
| DqmTypeSpec.SameTypeIff | compiler/ast/module_intf.cpp:1891-2095 | the written type comes back if and only if a pair record can carry its qualified name and it owns only objects and pointers |
| DqmTypeSpec.ZeroByteMovesTheCut | compiler/ast/dqm_if.cpp:404-419 | every qualified name with a zero byte in its module part is read as another name |
| DqmTypeSpec.AnotherTypeComesBack | compiler/ast/module_intf.cpp:1891-1912 | of two types with such names one is written and the other is read |
| DqmTypeSpec.SameShapeElsewhere | compiler/ast/module_intf.cpp:1891-2095 | elsewhere a type of the same shape is built, one object however often it is read |
| DqmTypeSpec.TypeSurvivesFile | compiler/ast/symbols.cpp:458-481 | the round trip through a whole checked file, between other records |
| DqmTypeLaws.ComesBackByChains | compiler/ast/module_intf.cpp:1891-2095 | the written type comes back exactly when its names fit and every ownership wrapper leads, through aliases and wrappers, to an object, a pointer or nil |
| DqmTypeLaws.OwnedTypeComesBackIff | compiler/ast/module_intf.cpp:2065-2088 | one ownership wrapper comes back exactly when the chain below it ends in an object type, an opaque pointer type, nil, or a pointer to something |
| DqmTypeLaws.OneRecordIff | compiler/ast/symbols.cpp:458-481 | a single name record is written for exactly the named types and the aliases of named types that are no pointers; a bracketed group for all others |
| DqmTypeLaws.ArrayIsWrittenIff | compiler/ast/symbols.cpp:395-456 | an array is written exactly when its element type is and its length is at most 2147483647 |
| DqmTypeLaws.ArrayIsOpenedIff | compiler/ast/module_intf.cpp:2006-2012 | exactly four bytes without a sign bit open an array, and their little-endian value is its length |
| DqmTypeLaws.SpelledOut | compiler/ast/dqm_if.h:114-131 | the record ids and data for a name and for each kind of derivation |
| DqmGrammar.OnlySpecsAreRead | compiler/ast/module_intf.cpp:1891-2095 | whatever the reader accepts is a well-bracketed spec with the right closing records, and the type returned is the one it spells |
| DqmTypeSpec.AliasDeclReads | compiler/ast/module_intf.cpp:2369-2388 | reading a written alias declaration gives its name and target and stops on its end record |
| DqmTypeSpec.AliasDeclSkips | compiler/ast/symbols.cpp:542-551 | skipping the same declaration consumes exactly its records |
| DqmTypeSpec.SkipStopsWhereReadingStops | compiler/ast/module_intf.cpp:2369-2388 | skipping and reading a declaration leave the reader on the same record |
| DqmTypeSpecIO.WriteTypeReference | compiler/ast/symbols.cpp:41-48 | appends the qualified or plain reference record, or fails |
| DqmTypeSpecIO.WriteTypeSpecInner | compiler/ast/symbols.cpp:395-456 | the payload grows by exactly the records of the type, or the writer is in error |
| DqmTypeSpecIO.WriteTypeSpec | compiler/ast/symbols.cpp:458-481 | the same for the outer form with its choice between a name and a group |
| DqmTypeSpecIO.ReadTypeSpec | compiler/ast/module_intf.cpp:1891-1985 | type, caches, cursor and error after reading are those of the specification |
| DqmTypeSpecIO.ReadOpening | compiler/ast/module_intf.cpp:1987-2066 | which records open a derivation, with the bound on array lengths |
| DqmTypeSpecIO.FinishDerivation | compiler/ast/module_intf.cpp:2076-2087 | the ownership check, the closing record and the cache, as specified |
| DqmTypeSpecIO.ReadTypeSpecInner | compiler/ast/module_intf.cpp:1987-2095 | as for the outer form, in mutual recursion with it |
| Flattening.FlattenedInterface.TouchModule | compiler/ast/module_intf.cpp:1268-1277 | an embedded module is created once; the owner becomes a dependency of a known consumer only |
| Flattening.FlattenedInterface.IncludeNode | compiler/ast/module_intf.cpp:1279-1402 | visited set, embedded declarations and dependencies after including one symbol |
| Flattening.FlattenedInterface.ExportNode | compiler/ast/module_intf.cpp:1404-1447 | the same for a re-exported symbol, with the error for one without owner |
| Flattening.FlattenedInterface.FlattenAll | compiler/ast/module_intf.cpp:1450-1480 | the constructor's loops compute the flattening |
| Flattening.FlattenIsExact | compiler/ast/module_intf.cpp:1279-1480 | without error, exactly the foreign named types reached and the foreign values re-exported are embedded, each in its own module |
| Flattening.FlattenFailsIff | compiler/ast/module_intf.cpp:1279-1447 | the walk fails exactly when a foreign type reached or a foreign value re-exported is not declared by its own module, or a re-exported symbol has no owner |
| Flattening.GraphIsClosed | compiler/ast/module_intf.cpp:1268-1277 | every recorded dependency is itself an embedded module |
| FlatteningDependencies.DependenciesAreReferences | compiler/ast/module_intf.cpp:1268-1402 | a recorded dependency of a module is always the owner of a type that one of its declarations reaches through types that pass the consumer on |
| FlatteningDependencies.DirectReferencesAreRecorded | compiler/ast/module_intf.cpp:1288-1292 | each foreign type directly below a visited named type of another module makes its owner a dependency of that module |
| FlatteningShared.DependenciesAreNeeds | compiler/ast/module_intf.cpp:1279-1402 | only needed dependencies are recorded, and all needed ones if no wrapper is needed on behalf of two modules |
| FlatteningShared.SharedWrapperIsMissed | compiler/ast/module_intf.cpp:1288-1299 | a pointer type that the root and a module share: the module needs the type behind it and is not recorded to depend on its owner |
| FlatteningDependencies.EmbeddedModulesAre | compiler/ast/module_intf.cpp:1268-1277 | exactly the owners of foreign named types reached and of foreign values re-exported are embedded |
| ModuleOrder.FlattenedModules.VisitModule | compiler/ast/module_intf.cpp:1487-1501 | one visit changes visited, active, result and error as specified |
| ModuleOrder.FlattenedModules.OrderedModules | compiler/ast/module_intf.cpp:1482-1508 | each module once; an error if and only if there is a cycle; without one, dependencies first |
| ModuleOrder.OrderIsRight | compiler/ast/module_intf.cpp:1482-1508 | the same about every walk over a closed dependency graph |
| EmbeddedModules.WriteModule | compiler/ast/module_intf.cpp:1703-1730 | the three loops write forward records for compounds, the enums, and all other declarations |
| EmbeddedModules.ReadEmbeddedModule | compiler/ast/module_intf.cpp:3259-3353 | the reader's loop: skipping known names, taking new ones, forward records, errors |
| EmbeddedModules.ItemsAreTaken | compiler/ast/module_intf.cpp:3259-3353 | written groups and forward records are taken one by one, and the reader stops behind the end record |
| EmbeddedModules.ModuleIsTaken | compiler/ast/module_intf.cpp:2630-2680 | no written declaration is refused, whatever names were known before: forward compounds are completed, overload sets grow |
| EmbeddedModules.ModuleIsRead | compiler/ast/module_intf.cpp:3221-3354 | exactly the written symbols are collected and added to the scope, for any set of names known before |
| EmbeddedModules.CollectedAreAllIff | compiler/types/otype_func.cpp:471-482 | the collected symbols are those the writer counts if and only if no overload set is empty |
| EmbeddedModules.AliasIsAGroup | compiler/ast/symbols.cpp:542-551 | a written type alias is a group that the reader skips as a whole |
| EmbeddedLaws.EnumsComeFirst | compiler/ast/module_intf.cpp:1711-1727 | no group of another declaration stands before the group of an enum |
| EmbeddedLaws.CompoundsAreAnnounced | compiler/ast/module_intf.cpp:1696-1709 | every compound has a forward record of its kind before all groups |
| EmbeddedLaws.DeclaredOrderIsKept | compiler/ast/module_intf.cpp:1711-1727 | among enums, and among the other declarations, the order of the module is kept |
| EmbeddedLaws.OverloadIff | compiler/ast/module_intf.cpp:2160-2208 | a function is an overload exactly when its last flags record has eight bytes and the lowest bit set |
| EmbeddedLaws.SecondDefinitionIff | compiler/ast/module_intf.cpp:2647-2676 | a second definition of a new name is accepted exactly for two functions marked as overloads |
| EmbeddedLaws.ForwardIsCompletedIff | compiler/ast/module_intf.cpp:3259-3353 | after a forward record exactly a compound of the same kind is accepted |
| EmbeddedLaws.OnlyItemsAreRead | compiler/ast/module_intf.cpp:3259-3353 | whatever group is accepted consists of forward records and closed groups of known forms, and the result is that of taking them in order |
| EmbeddedLaws.SpelledOut | compiler/ast/dqm_if.h:192-283 | the begin, end and forward ids of every form |
| ExportGroups.AddExports | compiler/ast/module_intf.cpp:1435-1447 | an error for a symbol without owner; of the others one export per kind and name, the first one found wins, and they keep the order in which they were found |
| ExportGroups.WriteExports | compiler/ast/module_intf.cpp:1732-1772 | the grouping loop writes the groups of all origin modules, or fails for a missing one |
| ExportGroups.WriteFlattened | compiler/ast/module_intf.cpp:1698-1772 | the embedded modules, then the export groups |
| ExportGroups.GroupRead | compiler/ast/module_intf.cpp:3409-3464 | either form of a group adds exactly the symbols of the group |
| ExportGroups.ModulesRead | compiler/ast/module_intf.cpp:3221-3257 | after the embedded modules each is known with its symbols, and the symbols collected are those it embeds; all else is unchanged |
| ExportGroups.ExportsRoundTrip | compiler/ast/module_intf.cpp:3356-3464 | whatever the reader knew and exported before, it adds exactly the written exports (kind, name, origin) and stops behind them |
| ExportLaws.ShortFormIff | compiler/ast/module_intf.cpp:1732-1772 | the one-record form is written exactly when the re-exported symbols are all that the module embeds; else a bracketed group |
| ExportLaws.FromKeepsOrder | compiler/ast/module_intf.cpp:1732-1772 | a group holds the exports of its module in their order |
| ExportLaws.MembersReadIff | compiler/ast/module_intf.cpp:3442-3464 | an explicit group is accepted exactly when the module offers every name and none is bound to another module |
| ExportLaws.ShortFormReadIff | compiler/ast/module_intf.cpp:3409-3441 | the same for the short form and the names of the embedded group |
| ExportLaws.AcceptedIff | compiler/ast/module_intf.cpp:3356-3464 | a written flattened part is accepted exactly when no exported name is already bound to another module |
| InterfaceExports.ExportedAreEmbedded | compiler/ast/module_intf.cpp:1404-1480 | the flattening embeds every re-exported symbol in its origin, so the writer finds its module |
| InterfaceExports.ReexportsSurvive | compiler/ast/module_intf.cpp:1730-1772 | from a flattening without error and without cyclic dependencies, all re-exports are written and read back exactly |
| ModuleInit.OpenModule.ModuleInitCallList | compiler/ast/dq_module.cpp:239-317 | the loops compute the call list |
| ModuleInit.StoredListIsCallList | compiler/ast/module_intf.cpp:1644-1653 | the list read back is the list written, in order, without duplicates |
| ModuleInit.StoredListIsExact | compiler/ast/module_intf.cpp:3517-3527 | it holds exactly the initialisers of all modules used transitively |
| ModuleInitOrder.ListedAsOffered | compiler/ast/dq_module.cpp:239-317 | the call list names what the used modules offer (initialiser, then list), each name once, in the order of first offers; the module itself comes last |
| ModuleInit.Runtime.Init | compiler/ast/statements.cpp:574-600 | guard, list, body, in that order, on the run-time state |
| ModuleInit.CallInitRuns | compiler/ast/dq_module.cpp:319-328 | after a call the body has run, everything it needs ran before it, and nothing else ran |
| ModuleInit.StartUp | compiler/ast/dq_module.cpp:380-397 | start-up runs each reachable initialiser exactly once, after those of all modules its module uses, even through modules without one |
| TestFileWorkers.TestFileWorker.ProcessFile | autotest/atrunner/testfileworker.cpp:49-63 | accepts a file exactly when idle, and holds it then |
| TestFileWorkers.TestFileWorker.IsIdle | autotest/atrunner/testfileworker.cpp:65-69 | idle means no file, not requested, not busy |
| TestFileWorkers.TestFileWorker.RequestStop | autotest/atrunner/testfileworker.cpp:35-47 | sets the termination flag and nothing else |
| TestFileWorkers.TestFileWorker.Claim | autotest/atrunner/testfileworker.cpp:73-93 | leaves only without a requested file, otherwise takes the file and becomes busy |
| TestFileWorkers.TestFileWorker.Release | autotest/atrunner/testfileworker.cpp:95-112 | drops the file and becomes idle |
| WorkerPool.NextKeepsInv | autotest/atrunner/at_runner.cpp:249-305 | what every step of every participant keeps |
| WorkerPool.EveryFileAtMostOnce | autotest/atrunner/at_runner.cpp:249-280 | in every interleaving no file runs or is held twice, and a file handed out is run or held |
| WorkerPool.HandOverIsNeverRefused | autotest/atrunner/at_runner.cpp:262-267 | idle check and hand-over are separate critical sections, yet the hand-over always succeeds |
| WorkerPool.DrainedMeansFinished | autotest/atrunner/at_runner.cpp:282-305 | polling one by one, the final loop ends only when all are idle at once and every file has run exactly once |
| WorkerPool.CanFinish | autotest/atrunner/at_runner.cpp:249-305 | from every state that keeps the invariant some schedule completes the batch |
| WorkerPool.NoDeadlock | autotest/atrunner/at_runner.cpp:249-305 | every reachable unfinished state can move, and can be completed |
| WorkerPool.ThreadStepsAreBounded | autotest/atrunner/testfileworker.cpp:71-113 | in every interleaving the threads make at most four steps per file and one per worker; the rest is polling |
| WorkerPool.StopNeverDrops | autotest/atrunner/testfileworker.cpp:79-84 | a stop request at any moment never drops an accepted file |
| WorkerPool.PassServesAllIdle | autotest/atrunner/at_runner.cpp:253-280 | while files remain, one pass gives every idle worker the next file in turn and leaves the busy ones alone |
| Migrator.Next | tools/dq_v1_to_v2.py:66-147 | the scanning loops cut off the lexeme at the index, or report its failure |
| Migrator.MigrateBytes | tools/dq_v1_to_v2.py:58-164 | the scanner loop computes the migrated text or the failure with its offset |
| MigratorRerun.LexCuts | tools/dq_v1_to_v2.py:66-147 | what is cut off is well formed, and what follows does not touch it |
| MigratorRerun.LexTakes | tools/dq_v1_to_v2.py:66-147 | a well-formed lexeme is cut off again in front of anything that may follow it |
| MigratorRerun.Relex | tools/dq_v1_to_v2.py:16-39 | re-scanning any output gives exactly the respelled lexemes: no replacement creates, ends or merges a token |
| MigratorTokens.SplitIff | tools/dq_v1_to_v2.py:66-147 | a text is cut into exactly the tokens that make it up, each as long as it can be; comments, strings with escapes, words and operators are said by their characters |
| MigratorTokens.FailsIff | tools/dq_v1_to_v2.py:75-110 | the cut fails exactly when tokens lead up to a comment or string without an end, and names it and its offset |
| MigratorRerun.AfterRespell | tools/dq_v1_to_v2.py:127-162 | a replacement leaves the scanner in the context the original left it in |
| MigratorTheorems.SplitLosesNothing | tools/dq_v1_to_v2.py:66-162 | the lexemes of a text put together are the text |
| MigratorTheorems.V2IsKept | tools/dq_v1_to_v2.py:58-59 | a source without V1 operators is not changed |
| MigratorOperands.CanEndIff | tools/dq_v1_to_v2.py:134-163 | an expression can end before a lexeme exactly when the last one that matters before it is a string, a digit, a word outside two lists, `)`, `]`, `}` or `^`; what matters is said by position |
| MigratorOperands.MigrationIsByPosition | tools/dq_v1_to_v2.py:16-164 | each lexeme is written by its text and position: `&` stays behind an operand and is `%` elsewhere, operators are replaced by two literal tables, all else is copied |
| MigratorTheorems.RerunIsSafeIff | tools/dq_v1_to_v2.py:126-133 | the second run succeeds, and changes nothing if and only if every `AND` and `=AND=` follows an operand |
| MigratorOperands.RerunIsSafeByPosition | tools/dq_v1_to_v2.py:126-133 | the same condition over positions |
| MigratorTheorems.ThirdRunEqualsSecond | tools/dq_v1_to_v2.py:58-164 | from the second run on nothing changes |
| MigratorTheorems.PrefixAndIsNotStable | tools/dq_v1_to_v2.py:126-133 | an input on which the second run changes the result of the first |
| MigratorTheorems.StructureIsPreserved | tools/dq_v1_to_v2.py:66-162 | the output scans again with the same comments, strings, brackets and line ends, at the same depths and contexts |
| PathText.SplitJoin | compiler/ast/module_path.cpp:38-68 | joining items and splitting again gives the items |
| PathText.SplitSlash | compiler/ast/module_path.cpp:38-57 | a slash between two texts separates their items |
| Sysroot.NormalizeRelPosix | tools/sysroot_export.py:90-107 | the loop normalises a path text, or fails when it climbs above the root |
| Sysroot.FollowTodo | tools/sysroot_export.py:188-233 | the worklist loop terminates on every tree and computes the bounded walk |
| Sysroot.ResolveSysrootRel | tools/sysroot_export.py:175-235 | normalises, then follows |
| Sysroot.LoopIsWalk | tools/sysroot_export.py:188-233 | the worklist is the recursive walk that resolves each link completely first, budget included |
| Sysroot.WalkConcat | tools/sysroot_export.py:230-231 | walking two parts one after the other is walking both |
| Sysroot.WalkShift | tools/sysroot_export.py:213-217 | the link bound only cuts a walk short |
| SysrootTheorems.ResolveIsUnboundedWalk | tools/sysroot_export.py:175-235 | for every path the resolver is the walk of the normalised path under any larger budget while that follows at most 128 links, and says so otherwise |
| SysrootLaws.NormalizesIff | tools/sysroot_export.py:90-107 | parts normalise exactly when no prefix of them climbs above the root, to a path as deep as they say |
| SysrootLaws.PartsCancel | tools/sysroot_export.py:90-107 | a name and the `..` behind it cancel anywhere, and empty parts do not matter |
| SysrootLaws.SlashesInFront | tools/sysroot_export.py:97-99 | one leading slash or three are the root, exactly two are a component |
| SysrootLaws.RelativeLinkLeads | tools/sysroot_export.py:213-231 | a relative target leads on from the directory of the link, and the rest of the path from there |
| SysrootLaws.AbsoluteLinkLeads | tools/sysroot_export.py:219-231 | an absolute target leads on from the root of the sysroot |
| SysrootLaws.UpLinkLeads | tools/sysroot_export.py:193-202 | a target that goes up leads on from the parent directory |
| SysrootLaws.UpLinkEscapes | tools/sysroot_export.py:193-202 | in the root it is refused |
| SysrootLaws.MissingIsReported | tools/sysroot_export.py:204-211 | a name that a real directory does not have is reported as broken, one that cannot be looked at as a failure |
| SysrootLaws.ChainArrivesIff | tools/sysroot_export.py:213-217 | a chain of links arrives exactly when it has at most 128 of them |
| SysrootTheorems.ResolvedIsPhysical | tools/sysroot_export.py:204-233 | every prefix of a result exists and is no link |
| SysrootTheorems.ResolvedStaysBelow | tools/sysroot_export.py:188-235 | where links stay, a path that normalises to names resolves to names below the root |
| SysrootTheorems.ResultIsStableIff | tools/sysroot_export.py:175-235 | where links stay, a result resolves to itself, with the one exception of a lone "/" |
| SysrootTheorems.ResolvingIsCongruent | tools/sysroot_export.py:175-235 | if p/q resolves to r, so does the resolved p followed by q, also below a double slash |
| SysrootRoots.PathStaysIff | tools/sysroot_export.py:90-107 | which paths resolve to names below the root in every tree where links stay |
| SysrootRoots.TargetStaysIff | tools/sysroot_export.py:219-231 | which link targets lead to names below the root in every tree where the other links stay |
| SysrootRoots.StableIff | tools/sysroot_export.py:186-188 | for which paths the result resolves again in every tree where links stay |
| SysrootRoots.LeavingIsNotStable | tools/sysroot_export.py:219-231 | one link that does not stay, and a result that does not resolve again |
| SysrootRoots.CongruentIff | tools/sysroot_export.py:186-188 | for which prefixes congruence holds in every tree where links stay, for a suffix that adds names |
| SysrootRoots.EmptySuffixIsNotCongruent | tools/sysroot_export.py:186-188 | below a double slash an empty suffix breaks it |
| SysrootLinks.RewrittenMeansTheSame | tools/sysroot_export.py:237-255 | exactly the targets that stay inside are accepted; the rewritten one is relative and names the same place by its text |
| SysrootLinks.LeadsTheSameWayIff | tools/sysroot_export.py:252-255 | for which absolute targets the rewritten one leads the same way in every tree, failures and link count included |
| SysrootLinks.RewrittenGoesElsewhere | tools/sysroot_export.py:252-255 | an absolute target whose rewritten form leads to another file |
| SysrootLinks.RewrittenLinkArrives | tools/sysroot_export.py:385-391 | the link written for a resolved target leads there without following a link |
| AutoFree.Machine.Cleanup | compiler/ast/symbols.cpp:286-347 | frees what the slot holds and leaves nil |
| AutoFree.Machine.AssignFresh | compiler/ast/symbols.cpp:349-365 | the old object is freed, the new one held |
| AutoFree.Machine.Move | compiler/ast/symbols.cpp:371-387 | a self-move does nothing, any other hands the object over |
| AutoFree.MovingInAnyRun | compiler/ast/symbols.cpp:371-387 | after a move in any run the target alone holds what the source held, the source is nil, the old object of the target is the last one freed, and all else is unchanged; a self-move changes nothing |
| AutoFree.AssigningInAnyRun | compiler/ast/symbols.cpp:349-365 | after an assignment the slot holds a new object or nil, the old object is the last one freed, and all else is unchanged |
| AutoFree.Machine.EmitOwnedObjectDestructors | compiler/codegen/oscope_codegen.cpp:42-53 | cleans the slots of a scope |
| AutoFree.LastDeclaredFreedFirst | compiler/codegen/oscope_codegen.cpp:44-52 | of two slots of a scope the later declared one loses its object first |
| AutoFree.Machine.EmitOwnedObjectDestructorsUntil | compiler/codegen/oscope_codegen.cpp:55-71 | walks outwards and leaves the scopes it was told to |
| AutoFree.EveryRunOwns | compiler/ast/symbols.cpp:286-387 | in every run each object is in exactly one slot or freed exactly once |
| AutoFree.NothingLeaks | compiler/ast/statements.cpp:95-101 | when all scopes are left every object has been freed exactly once |
| AutoFree.LeavingFreesExactlyTheExited | compiler/ast/statements.cpp:689-721 | return, break, continue and block ends free exactly what the exited scopes own |
| ModulePath.NormalizeLocalPath | compiler/ast/module_path.cpp:208-238 | the stack loop computes the normalised local path |
| ModulePath.ModulePath.ResolveFrom | compiler/ast/module_path.cpp:340-401 | fields after success, and all unchanged on failure |
| ModulePath.UseBeside | compiler/ast/module_path.cpp:366-385 | `./names` names a module beside the current one |
| ModulePath.UseAbove | compiler/ast/module_path.cpp:366-385 | `../names` names one in the directory above, if there is one |
| ModulePath.UseFromRoot | compiler/ast/module_path.cpp:366-385 | `^/names` names one from the package root |
| ModulePath.UseOfPackage | compiler/ast/module_path.cpp:340-364 | any other use names a module of the package of its first item, under the root of that package |
| ModulePath.NormalizesIff | compiler/ast/module_path.cpp:208-238 | a use resolves exactly when no prefix of it climbs above the package root and something is left |
| ModulePath.NamesAppend | compiler/ast/module_path.cpp:226-229 | names are appended in order |
| ModulePath.NameAndUpCancel | compiler/ast/module_path.cpp:217-229 | a name and the `..` behind it cancel anywhere in a use |
| ModulePath.LocalUseStaysInside | compiler/ast/module_path.cpp:366-401 | a resolved local use names a file below the package root, without dots |
| ModulePath.IdDecodes | compiler/ast/module_path.cpp:199-206 | a module id takes apart into the package and local path it was made from |
| ModulePath.IdAndSource | compiler/ast/module_path.cpp:199-206 | the id and the source file of a module, spelled out |
| ModulePath.SecondResolver | compiler/ast/module_path.cpp:482-528 | which of its three sources of a root the second resolver uses |
| ModulePath.WithoutContextSource | compiler/ast/module_path.cpp:507-528 | a module of another package, or one without a context source, is only found by the search path or in the build root |
| ModulePath.ResolversAgreeIff | compiler/ast/module_path.cpp:482-509 | when both resolvers find the same source file |
| ModulePath.ResolversDisagree | compiler/ast/module_path.cpp:495-516 | uses from the main module of a package that the search paths also offer elsewhere |

## Left out

- LLVM building, debug information, object files, locks, timestamps, child processes and command lines: no behaviour of the modelled protocols depends on them.
- Messages: an error is modelled by its cause, not by its text; where the code keeps only the first error, so does the model.
- Type specs of function references and object types, and names that stand for types made on the fly (`embstr(n)`, `func(...)`): their writers and readers are not part of this model.
- DqmTypeSpecIO.WriteTypeSpecInner: without the function-reference and object-type branches.
- DqmTypeSpecIO.WriteTypeSpec: without the object-type kind in the choice of a group.
- DqmTypeSpecIO.ReadTypeSpec: treats function-reference and object-type records as unexpected.
- Name lookup while reading types is a map from names to types; how that map is filled is not modelled, and a home name stands for whatever module the reader finds for it.
- DqmTypeSpec.SameTypeComesBack: asks for names that a pair record can carry; `DqmTypeSpec.SameTypeIff` has the exact condition.
- DqmTypeSpec.AliasDeclReads: adding the alias to the public scope is not part of it; that a taken name is refused is in `EmbeddedModules.Define`.
- EmbeddedModules.ModuleIsRead: the bodies of declarations are opaque groups, and reading one is taken to succeed and to stop on its own end record, as is proved for type aliases; only the overload flag of a function is read. A module declares each name once and a compound as one kind, as its scope ensures. A type that another interface left incomplete counts as known.
- EmbeddedModules.WriteModule: takes the embedded declarations of the module as a list in module order; picking them out of the module's declarations by membership is not modelled.
- ExportGroups.ExportsRoundTrip: a symbol is identified by its kind, name and origin instead of its address; overload sets have a function (`EmbeddedModules.CollectedAreAllIff`).
- InterfaceExports.ReexportsSurvive: a re-exported symbol belongs to another module and is not a pointer, array or other wrapper type, because it is found by name in the scope of a used module.
- Flattening.FlattenedInterface.FlattenAll: the sources that decide freshness are not modelled, and the export list is collected by `ExportGroups.AddExports`.
- Flattening.FlattenFailsIff: without the error for conflicting source paths of a module, which belongs to the sources that decide freshness.
- FlatteningShared.DependenciesAreNeeds: that all needed dependencies are recorded is proved when no wrapper is needed on behalf of two modules; where one is, another path can still record what it misses, so the condition is not exact. The module order is about the dependencies that are recorded.
- ModuleOrder.OrderIsRight: it asks that every recorded dependency is an embedded module, which every flattening provides (`Flattening.GraphIsClosed`).
- The iteration order of maps is a given listing; the results hold for every listing.
- ModuleInit.StartUp: the use graph is given in compile order, which is how an acyclic graph looks, and linkage names are distinct; a name stands for its initialiser, and the bodies themselves are not modelled.
- TestFileWorkers.TestFileWorker.RequestStop: joining the thread is the Join step of `WorkerPool`.
- WorkerPool.NoDeadlock: with no worker and at least one file the distributor polls for ever, so at least one worker is asked for; sleeping and the fairness of the scheduler are not modelled, so a run may be completed but is not forced to be.
- Migrator.MigrateBytes: bytes are characters of a string; nothing depends on their bound.
- SysrootTheorems.ResolvingIsCongruent: links in real directories stay below the root, and `SysrootRoots.CongruentIff` is about suffixes that add names; a suffix with a leading slash is not a relative one.
- The tree of the sysroot answers for each path text on its own; that two texts can name one file is not modelled.
- SysrootLinks.RewrittenLinkArrives: the directory of the link is the real one; relpath is modelled as steps up to what two paths share, then down.
- Exporting files, filters, copies and directory aliases of the sysroot tool: file system work.
- Autofree fields of heap objects and globals, `finally`, and unwinding: the ownership model is about local slots in normal control flow.
- AutoFree.Machine.EmitOwnedObjectDestructorsUntil: the scope to stop at is given as the number of scopes to leave, so one that does not enclose the current scope is not covered.
- ModulePath.ModulePath.ResolveFrom: the search for package roots and artifact paths are parameters or left out; in ModulePath.ResolversAgreeIff, whether a context artifact was built locally is a parameter.
- The language server, inline assembly, constant evaluation and the C header converter.
