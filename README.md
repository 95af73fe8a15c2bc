# API Portability analysis core, modelled in Dafny

This project models three parts of the .NET API Portability analyzer:

- **The analysis engine** (`AnalysisEngine`). It takes the aggregated dependency map, which sends each referenced API (`MemberInfo`) to the user assemblies that reference it. From that map it computes:
  - the APIs that some requested target does not support, filling in each API's per-target status and recommendations along the way;
  - the breaking changes that apply to the full .NET Framework targets;
  - the user assemblies that an ignore list covers;
  - the unresolved assemblies that are neither framework assemblies nor user inputs.
- **The dependency finder helper** (`DependencyFinderEngineHelper`). It scans one module's type-reference table, then its member-reference table. It appends one `MemberDependency` per reference that the injected filter keeps, plus a synthetic entry for the member's parent type when that parent is a local definition, or a primitive while scanning `mscorlib`; the filter judges that entry separately from the member's own. Rows that fail to decode are skipped.
- **`AlwaysTrueDependencyFilter`**: the filter that keeps everything.

Files:

- `Wrappers.dfy`: the optional value used wherever the source allows `null`.
- `Text.dfy`: ordinal case-insensitive comparison.
- `Versions.dfy`: `System.Version` and its ordering.
- `Sequences.dfy`: concatenation of per-row results, the shape of every scan that appends as it goes.
- `ObjectModel.dfy`: the records exchanged between the two components. `MemberInfo` is a class whose analysis fields the engine updates in place.
- `AlwaysTrueDependencyFilter.dfy`, `DependencyFinder.dfy`, `Analysis.dfy`: the three components.

How the collaborators are modelled:

- The catalogue (`IApiCatalogLookup`), the recommendations store (`IApiRecommendations`) and the dependency filter (`IDependencyFilter`) are records of total functions.
- Rendering an identity with its version and culture cleared (through `System.Reflection.AssemblyName`) is a function given to the engine's constructor.
- The metadata reader is given as its decoded tables (`MetadataImage`).

The imperative parts stay imperative:

- `ComputeData` extends the helper's `MemberDependency` sequence field.
- `ProcessMemberInfo` assigns the fields of a `MemberInfo` object.
- The loops of `FindBreakingChanges`, `IsSupportedAcrossTargets`, `FindUnreferencedAssemblies` and the others are `for`/`while` loops.

Each method is proved against a specification function. Separate lemmas then characterise those functions, for example exactly which triples `FindBreakingChanges` reports.

## Model

| member | source | states |
|---|---|---|
| AlwaysTrueDependencyFilter.IsFrameworkAssembly | src/Microsoft.Fx.Portability/Analyzer/AlwaysTrueDependencyFilter.cs:11-14 | every assembly, including a missing one, is a framework assembly |
| AlwaysTrueDependencyFilter.IsKnownThirdPartyAssembly | src/Microsoft.Fx.Portability/Analyzer/AlwaysTrueDependencyFilter.cs:16-19 | no assembly is a known third-party assembly |
| AlwaysTrueDependencyFilter.Filter | src/Microsoft.Fx.Portability/Analyzer/AlwaysTrueDependencyFilter.cs:9-20 | the filter keeps a reference whatever its defining assembly |
| DependencyFinder.GetPrefix | src/Microsoft.Fx.Portability.MetadataReader/DependencyFinderEngineHelper.cs:167-178 | fields get `F`, methods `M`, any other kind its own name |
| DependencyFinder.DependencyFinderEngineHelper.constructor | src/Microsoft.Fx.Portability.MetadataReader/DependencyFinderEngineHelper.cs:21-40 | the dependency list starts empty; the calling assembly is the formatted identity, with an empty file version or framework moniker when the source has none; the module's own identity and simple name are recorded |
| DependencyFinder.DependencyFinderEngineHelper.TypeDefinedIn | src/Microsoft.Fx.Portability.MetadataReader/DependencyFinderEngineHelper.cs:107 | a type is attributed to its own assembly when it has one, else to the scanned module |
| DependencyFinder.DependencyFinderEngineHelper.CreateMemberDependency | src/Microsoft.Fx.Portability.MetadataReader/DependencyFinderEngineHelper.cs:97-121 | an entry exists exactly when the filter accepts the defining assembly; it is `T:` plus the type's rendering, attributed to this module and to the defining assembly, with no type doc id and not primitive |
| DependencyFinder.DependencyFinderEngineHelper.MemberDefinedIn | src/Microsoft.Fx.Portability.MetadataReader/DependencyFinderEngineHelper.cs:128-138 | a member belongs to its parent's assembly when the parent has one, else to this module; it has no assembly exactly when the parent is a primitive without an assembly and the module is not `mscorlib` |
| DependencyFinder.DependencyFinderEngineHelper.TypeRowEntries | src/Microsoft.Fx.Portability.MetadataReader/DependencyFinderEngineHelper.cs:49-70 | a malformed type reference adds nothing; a decoded one adds one entry exactly when the filter keeps it: `T:` plus the type's rendering, attributed to this module and to the type's assembly, with no type doc id and not primitive |
| DependencyFinder.DependencyFinderEngineHelper.ParentEntries | src/Microsoft.Fx.Portability.MetadataReader/DependencyFinderEngineHelper.cs:146-155 | the parent type gets its own entry exactly when it is a local definition, or a primitive while scanning `mscorlib`, and the filter keeps it; that entry is the one `CreateMemberDependency` builds for the parent |
| DependencyFinder.DependencyFinderEngineHelper.MemberEntry | src/Microsoft.Fx.Portability.MetadataReader/DependencyFinderEngineHelper.cs:141-164 | the member's entry exists exactly when the filter accepts its defining assembly; its doc id is prefix, `:`, rendering; its type doc id is `T:` plus the parent; its primitive flag and assembly come from the parent |
| DependencyFinder.DependencyFinderEngineHelper.MemberRowEntries | src/Microsoft.Fx.Portability.MetadataReader/DependencyFinderEngineHelper.cs:73-94 | a malformed or filtered-out member reference adds nothing; an accepted one adds the parent entries, then its own entry |
| DependencyFinder.DependencyFinderEngineHelper.GetMemberReferenceMemberDependency | src/Microsoft.Fx.Portability.MetadataReader/DependencyFinderEngineHelper.cs:123-165 | returns the member's entry, or nothing when filtered out; only when it returns one has it already appended the parent entries |
| DependencyFinder.DependencyFinderEngineHelper.AddTypeReferences | src/Microsoft.Fx.Portability.MetadataReader/DependencyFinderEngineHelper.cs:49-70 | the list grows by the entries of the whole type-reference table, in table order |
| DependencyFinder.DependencyFinderEngineHelper.AddMemberReference | src/Microsoft.Fx.Portability.MetadataReader/DependencyFinderEngineHelper.cs:75-93 | one member-reference row extends the list by exactly that row's entries |
| DependencyFinder.DependencyFinderEngineHelper.AddMemberReferences | src/Microsoft.Fx.Portability.MetadataReader/DependencyFinderEngineHelper.cs:73-94 | the list grows by the entries of the whole member-reference table, in table order |
| DependencyFinder.DependencyFinderEngineHelper.ComputeData | src/Microsoft.Fx.Portability.MetadataReader/DependencyFinderEngineHelper.cs:46-95 | the list grows by all type-reference entries, then all member-reference entries |
| DependencyFinder.DependencyFinderEngineHelper.TypeTableEntriesShape | src/Microsoft.Fx.Portability.MetadataReader/DependencyFinderEngineHelper.cs:115-120 | every type-table entry has a `T:` doc id, names this module as caller, has a defining assembly and is not primitive |
| DependencyFinder.DependencyFinderEngineHelper.MemberTableEntriesShape | src/Microsoft.Fx.Portability.MetadataReader/DependencyFinderEngineHelper.cs:115-164 | every member-table entry names this module as caller, and an entry without a defining assembly is always primitive |
| DependencyFinder.DependencyFinderEngineHelper.TableEntriesBound | src/Microsoft.Fx.Portability.MetadataReader/DependencyFinderEngineHelper.cs:46-95 | a scan adds at most one entry per type reference and two per member reference |
| DependencyFinder.DependencyFinderEngineHelper.MalformedTypeReferenceSkipped | src/Microsoft.Fx.Portability.MetadataReader/DependencyFinderEngineHelper.cs:61-69 | a malformed type reference anywhere in the table leaves the result as if it were absent |
| DependencyFinder.DependencyFinderEngineHelper.MalformedMemberReferenceSkipped | src/Microsoft.Fx.Portability.MetadataReader/DependencyFinderEngineHelper.cs:85-93 | a malformed member reference anywhere in the table leaves the result as if it were absent |
| DependencyFinder.DependencyFinderEngineHelper.AcceptAllKeepsEveryTypeReference | src/Microsoft.Fx.Portability.MetadataReader/DependencyFinderEngineHelper.cs:49-70 | under a filter that accepts everything, the type table yields exactly one entry per decodable row |
| DependencyFinder.DependencyFinderEngineHelper.AcceptAllKeepsEveryMemberReference | src/Microsoft.Fx.Portability.MetadataReader/DependencyFinderEngineHelper.cs:141-164 | under a filter that accepts everything, a member reference yields two entries when its parent needs one, otherwise one |
| DependencyFinder.DependencyFinderEngineHelper.AlwaysTrueFilterKeepsEveryTypeReference | src/Microsoft.Fx.Portability/Analyzer/AlwaysTrueDependencyFilter.cs:11-14 | a helper whose filter answers like `AlwaysTrueDependencyFilter` drops no decodable type reference |
| DependencyFinder.DependencyFinderEngineHelper.AlwaysTrueFilterKeepsEveryMemberReference | src/Microsoft.Fx.Portability/Analyzer/AlwaysTrueDependencyFilter.cs:9-20 | with `AlwaysTrueDependencyFilter` the member table yields one entry per decodable row, two when the parent needs its own entry: nothing is filtered out |
| Sequences.FlatMapAppend | src/Microsoft.Fx.Portability.MetadataReader/DependencyFinderEngineHelper.cs:49-94 | scanning a table split in two equals scanning the parts one after the other |
| Sequences.FlatMapPrefixStep | src/Microsoft.Fx.Portability.MetadataReader/DependencyFinderEngineHelper.cs:49-94 | scanning one more row appends exactly that row's entries |
| Sequences.FlatMapSkip | src/Microsoft.Fx.Portability.MetadataReader/DependencyFinderEngineHelper.cs:61-93 | a row that contributes nothing can be removed from anywhere |
| Sequences.FlatMapLengthBound | src/Microsoft.Fx.Portability.MetadataReader/DependencyFinderEngineHelper.cs:49-94 | at most k entries per row gives at most k times the row count |
| Sequences.FlatMapMember | src/Microsoft.Fx.Portability.MetadataReader/DependencyFinderEngineHelper.cs:49-94 | every entry of a scan comes from some row |
| ObjectModel.Keys | src/Microsoft.Fx.Portability/Analysis/AnalysisEngine.cs:132 | every entry's key is among the dictionary's keys |
| ObjectModel.KeysExactly | src/Microsoft.Fx.Portability/Analysis/AnalysisEngine.cs:132 | an object is a key exactly when some entry has it as its key |
| Text.EqualsIgnoreCaseIff | src/Microsoft.Fx.Portability/Analysis/AnalysisEngine.cs:52 | ordinal case-insensitive equality holds exactly for strings of equal length that agree at every position, up to the case of an ASCII letter |
| Text.EqualsIgnoreCaseExample | src/Microsoft.Fx.Portability/Analysis/AnalysisEngine.cs:52 | example: `.NET Framework` equals `.net FRAMEWORK` but not `.NET Core` |
| Versions.LessIsStrictTotalOrder | src/Microsoft.Fx.Portability/Analysis/AnalysisEngine.cs:106-107 | version comparison is irreflexive, asymmetric, transitive and total |
| Analysis.BreakingChangeIsInVersionRange | src/Microsoft.Fx.Portability/Analysis/AnalysisEngine.cs:96-114 | true exactly when some target version equals the version broken, or lies after it and before the fix (if any) |
| Analysis.VersionRangeIsHalfOpen | src/Microsoft.Fx.Portability/Analysis/AnalysisEngine.cs:106-107 | for a break fixed later than it appeared, the range is from the broken version (included) to the fixed version (excluded) |
| Analysis.UnfixedBreakCoversLaterVersions | src/Microsoft.Fx.Portability/Analysis/AnalysisEngine.cs:106-107 | an unfixed break applies to every version from the broken one on |
| Analysis.SameVersionFixCoversOnlyThatVersion | src/Microsoft.Fx.Portability/Analysis/AnalysisEngine.cs:100-107 | a break fixed in the version it appeared in is still reported for exactly that version |
| Analysis.VersionRangeBoundaries | src/Microsoft.Fx.Portability/Analysis/AnalysisEngine.cs:106-107 | broken in 4.0 and fixed in 4.5: 4.0 and 4.2 are in range, 3.5 and 4.5 are not; unfixed: 4.8 is in range |
| Analysis.IsSupportedOnTarget | src/Microsoft.Fx.Portability/Analysis/AnalysisEngine.cs:242-260 | supported exactly when the catalogue has the API on the target, or has its non-empty source-compatible equivalent; the status recorded is that of the API on a direct hit, that of the equivalent when the fallback queries it, and otherwise that of the first query |
| Analysis.StatusAbsentIffUnsupported | src/Microsoft.Fx.Portability/Analysis/AnalysisEngine.cs:242-260 | with a catalogue that reports a status exactly for present APIs, the status is absent exactly when unsupported |
| Analysis.IsSupportedAcrossTargets | src/Microsoft.Fx.Portability/Analysis/AnalysisEngine.cs:182-202 | one status per target, in target order, each the per-target status; the result is true exactly when every target supports the API |
| Analysis.FullFrameworkVersions | src/Microsoft.Fx.Portability/Analysis/AnalysisEngine.cs:51-54 | the versions are exactly those of targets whose identifier is `.NET Framework`, ignoring case |
| Analysis.OtherTargetsDoNotAffectVersions | src/Microsoft.Fx.Portability/Analysis/AnalysisEngine.cs:51-54 | adding a target that is not the full framework leaves the versions unchanged |
| Analysis.NoFullFrameworkNoVersions | src/Microsoft.Fx.Portability/Analysis/AnalysisEngine.cs:51-59 | without a full-framework target there is no version to test ranges against |
| Analysis.SkippedAssemblies | src/Microsoft.Fx.Portability/Analysis/AnalysisEngine.cs:30-40 | a user assembly is skipped exactly when some ignore entry names it (ignoring case) and ignores it for all targets or lists every target's full name |
| Analysis.Distinct | src/Microsoft.Fx.Portability/Analysis/AnalysisEngine.cs:65 | the same breaking changes, each once |
| Analysis.AnalysisEngine.constructor | src/Microsoft.Fx.Portability/Analysis/AnalysisEngine.cs:22-26 | the engine keeps the catalogue and recommendations it is given |
| Analysis.AnalysisEngine.MemberIsInFramework | src/Microsoft.Fx.Portability/Analysis/AnalysisEngine.cs:145-157 | an API whose assembly was submitted is never framework; one without an assembly always is; otherwise the catalogue must know the stripped assembly and the API |
| Analysis.AnalysisEngine.MemberIsInKnownThirdPartyLibrary | src/Microsoft.Fx.Portability/Analysis/AnalysisEngine.cs:159-162 | every API is accepted by the third-party hook |
| Analysis.AnalysisEngine.FindBreakingChangeSkippedAssemblies | src/Microsoft.Fx.Portability/Analysis/AnalysisEngine.cs:28-41 | yields the skipped user assemblies in input order |
| Analysis.AnalysisEngine.AssemblyEmissionsMember | src/Microsoft.Fx.Portability/Analysis/AnalysisEngine.cs:75-89 | one break on one API is recorded for exactly the referencing assemblies not on the ignore list |
| Analysis.AnalysisEngine.BreakEmissionsMember | src/Microsoft.Fx.Portability/Analysis/AnalysisEngine.cs:66-91 | an API's records are exactly its reportable breaks paired with its non-ignored referencing assemblies |
| Analysis.AnalysisEngine.EntriesEmissionsMember | src/Microsoft.Fx.Portability/Analysis/AnalysisEngine.cs:61-93 | a record appears exactly when some map entry emits it |
| Analysis.AnalysisEngine.BreakingChangesEmittedIff | src/Microsoft.Fx.Portability/Analysis/AnalysisEngine.cs:43-94 | (b, a, m) is reported exactly when some target is the full framework, an entry for m, a framework API, lists a, a is not ignored, and b is a catalogued break of m that is shown (retargeting only on request), in range of a full-framework version and not suppressed |
| Analysis.AnalysisEngine.NoFullFrameworkNoBreakingChanges | src/Microsoft.Fx.Portability/Analysis/AnalysisEngine.cs:50-59 | without a full-framework target nothing is reported |
| Analysis.AnalysisEngine.FindBreakingChanges | src/Microsoft.Fx.Portability/Analysis/AnalysisEngine.cs:43-94 | yields exactly the records of the breaking-change specification, in map, break and assembly order |
| Analysis.AnalysisEngine.BreakingChangeRecords | src/Microsoft.Fx.Portability/Analysis/AnalysisEngine.cs:66-91 | one API's records, break by break, skipping retargeting breaks unless requested |
| Analysis.AnalysisEngine.DependantAssemblyRecords | src/Microsoft.Fx.Portability/Analysis/AnalysisEngine.cs:75-89 | one record per referencing assembly not on the ignore list, in order |
| Analysis.AnalysisEngine.ProcessMemberInfo | src/Microsoft.Fx.Portability/Analysis/AnalysisEngine.cs:167-177 | returns the same object, with per-target status and overall support computed against the given catalogue, and recommended and source-compatible changes set |
| Analysis.AnalysisEngine.FindMembersNotInTargets | src/Microsoft.Fx.Portability/Analysis/AnalysisEngine.cs:116-143 | a missing map or target list gives nothing and changes no key; otherwise every key is processed, and the result holds exactly the keys not supported on every target; with distinct keys, no key appears twice |
| Analysis.AnalysisEngine.FindUnreferencedAssemblies | src/Microsoft.Fx.Portability/Analysis/AnalysisEngine.cs:204-227 | a missing list gives nothing; otherwise the result holds exactly the non-null unresolved identities that are not framework assemblies and match no non-null user input, ignoring case; each kept occurrence appears exactly once, so the result has the same multiset as the kept identities |
| Analysis.AnalysisEngine.NonFrameworkAssemblies | src/Microsoft.Fx.Portability/Analysis/AnalysisEngine.cs:210-212 | exactly the non-null identities whose stripped form the catalogue does not know as a framework assembly, each as often as it occurs in the input |
| Analysis.UnspecifiedAssemblies | src/Microsoft.Fx.Portability/Analysis/AnalysisEngine.cs:214-226 | an identity is reported exactly when no non-null user input matches it, ignoring case; a reported identity keeps its number of occurrences, an unreported one has none |
| Analysis.ReportUnspecifiedAssemblies | src/Microsoft.Fx.Portability/Analysis/AnalysisEngine.cs:214-226 | the loop reports, in input order, exactly the identities the specification above keeps |

## Left out

- `GetAssemblyIdentityWithoutCultureAndVersion` (`AnalysisEngine.cs:229-240`) is not modelled. It parses and re-renders a display name through `System.Reflection.AssemblyName`, so the engine receives the rendering as a function (`stripIdentity`). A malformed name, which makes the source throw, is not modelled.
- `CatalogLastUpdated` forwards the catalogue's timestamp and is not modelled. `Stopwatch` timing and the commented-out tracing are not modelled.
- `MemberInfoBreakingChangeComparer` is declared but never used. It is not modelled.
- The `AsParallel` queries in `FindMembersNotInTargets` and `FindUnreferencedAssemblies` run as sequential loops.
- Analysis.AnalysisEngine.FindMembersNotInTargets: does not promise an order, because the source's parallel query does not preserve one. Multiplicity is stated: with distinct keys, no key appears twice.
- Analysis.AnalysisEngine.FindUnreferencedAssemblies: does not promise an order, because the source filters through a parallel query. Multiplicity is stated as a multiset equality.
- `FindUnreferencedAssemblies`' loop is the method `ReportUnspecifiedAssemblies`.
- `MemberInfo.cs` is not part of this model. The class's fields follow their uses in `AnalysisEngine.cs`; its empty status list and empty strings stand for `null`.
- The `dependencies.Keys == null` test is not modelled. A dictionary's key collection is never null, so the model tests only the map and the targets.
- The dependency dictionary is a sequence of entries in enumeration order. Distinct keys are not required.
- Null inputs that make the source throw are not modelled; the model takes these inputs as non-null. `FindBreakingChanges` and `FindBreakingChangeSkippedAssemblies` are lazy iterators, so each throws only when enumeration reaches the null, after any records already yielded. `FindMembersNotInTargets` is not an iterator: it builds its list eagerly, so it throws during the call and returns nothing partial. Where each one throws:
  - `FindBreakingChanges` throws when it reaches a null `targets` (at once), a null `dependencies` (once a full-framework target exists), a null `submittedAssemblies` (at the first map entry) or an entry's null assembly collection (at the first reportable break of that entry).
  - `FindBreakingChangeSkippedAssemblies` throws when it reaches a null `userAssemblies` (at once), a null `assembliesToIgnore` (at the first user assembly) or a null `targets` (at the first ignore entry that names the assembly without ignoring it for all targets).
  - `FindMembersNotInTargets` throws during the call, while building its list, on a null `submittedAssemblies` when there is at least one key, because `MemberIsInFramework` runs before the always-true third-party hook.
- A null input that the source never reaches, and so does not throw on, cannot be expressed either, since the model has no null for these parameters:
  - a null `targets` in `FindBreakingChangeSkippedAssemblies` when every matching ignore entry ignores the assembly for all targets;
  - a null `assembliesToIgnore` in `FindBreakingChangeSkippedAssemblies` when `userAssemblies` is empty;
  - a null `dependencies` or `submittedAssemblies` in `FindBreakingChanges` when no target is the full framework, and a null `submittedAssemblies` there when the map is empty;
  - a null `submittedAssemblies` in `FindMembersNotInTargets` when the map is empty.
- A null `assembliesToIgnore` or `breakingChangesToSuppress` in `FindBreakingChanges` is modelled and means "ignore nothing" or "suppress nothing". `FindBreakingChangeSkippedAssemblies` has no such "null means empty" reading of its ignore list.
- The default value `false` of `showRetargettingIssues` is not modelled: the flag is always an explicit argument here.
- `FindBreakingChanges`' three nested loops are split into three methods, one loop each: `FindBreakingChanges`, `BreakingChangeRecords` and `DependantAssemblyRecords`.
- `BreakingChange` and `AssemblyInfo` equality (`Distinct()`, `Contains`) is structural. Custom `Equals` overrides are not part of this model.
- Ordinal case-insensitive comparison lower-cases ASCII letters only. Other Unicode case mappings are not modelled.
- `FrameworkName.FullName` is a field of the target, not computed from the identifier, version and profile.
- Decoding metadata is not modelled. This covers `MetadataReader`, `MemberMetadataInfoTypeProvider` and the rendering of types and members as doc-id text. Each table row arrives decoded or marked malformed.
- `GetTypeReferenceMemberDependency` only decodes and then calls `CreateMemberDependency`, so it is folded into `AddTypeReferences`.
- `ComputeData`'s two loops are the methods `AddTypeReferences` and `AddMemberReferences`. The member loop's body is `AddMemberReference`.
- A `BadImageFormatException` raised partway through a member reference is not modelled, in particular after the synthetic parent entry has been appended. A malformed row contributes nothing as a whole.
- `IDependencyFilter` is stateless here by construction, since a filter is a pair of functions.
- The catalogue and recommendations stores, the backend service, storage clients, caches and the tests are I/O around the core. They are not part of this model.
