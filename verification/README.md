# NuGetGraphSolver resolution core in Dafny

This project models the dependency-resolution core of NuGetGraphSolver. The core picks the newest mutually compatible versions of a set of NuGet packages, in two stages.

The first stage is the **universe builder**. Starting from the root package ids, it does a breadth-first walk over package ids. It asks a metadata provider for each id's candidate versions exactly once. It enqueues every dependency id, from every group of every version, until the set of ids is closed. It then records one **effective** dependency list per (package, version index). That list is the dependencies of the group nearest to the project's target framework.

The second stage is the **solver**. It encodes the universe as constraints over one index variable per package:
- the index lies within the package's candidate list;
- choosing index i for p implies that each effective dependency of (p, i) sits at an index its range admits.

It then maximises the sum of the indices of the top-level packages. Candidates are ascending, so a larger index is a newer version.

Two pure helpers feed these stages:
- **Metadata post-processing.** It merges the entries that several package sources returned for one id:
  - the first source that lists a version wins;
  - the newest `maxVersions` versions are kept;
  - they are put back in ascending order.
- **Nearest-group selection.** It is the fallback logic around NuGet's "nearest framework" reducer.

## Modules

| file | module | contents |
|---|---|---|
| wrappers.dfy | `Wrappers` | `Option`, `Result` |
| versions.dfy | `Versions` | versions as ranks in the release order, ranges with optional inclusive/exclusive bounds |
| domain.dfy | `Domain` | `DependencyInfo`, `DependencyGroupInfo`, `PackageVersionNode`, `PackageUniverse` and its well-formedness |
| frameworks.dfy | `Frameworks` | `SelectNearestDependencyGroup` over an abstract framework oracle |
| metadata.dfy | `Metadata` | the pure tail of `GetPackageVersionsAsync` |
| builder.dfy | `UniverseBuilder` | `BuildAsync`: the fetch loop and the effective-dependency map |
| solver.dfy | `Solver` | `SolveForNewest`: the constraints, the objective, an exhaustive search proved optimal |
| smoke.dfy | `SolverExample` | the two-package universe of the solver's smoke test, solved |

### Abstractions

**Versions.**
- A version is its rank in NuGet's release-aware order, plus its normalised string.
- Range membership is a bounds check on ranks.

**Package ids.** Ids are strings that are already case-folded.

**Frameworks.**
- A `Reducer<F>` bundles three functions: framework parsing, `GetNearest` and `IsAny`.
- The selection requires the library's contract for `GetNearest`: an answer is one of the frameworks it was given.

**The provider.**
- It is a function `Fetch` from an id to either the version list or a `FetchError`.
- An exception thrown by the provider becomes a `Failure` that the builder returns.

**Termination.**
- The source loops for as long as new ids keep appearing.
- The builder therefore takes a ghost `bound`: a set that contains the roots and is closed under dependency edges. This makes the reachable set finite.

**The solver.**
- The Z3 call is replaced by an enumeration of every in-domain assignment. The enumeration is proved complete.
- The best feasible assignment is returned. Ties go to the first one found; Z3 may return any optimum.
- An unsatisfiable problem yields the error `Infeasible`.
- A lookup of a package that is not a candidate makes the source throw `KeyNotFoundException`. The model returns the error `UnknownPackage` instead.

**Blocked and unsatisfiable dependencies.**
- A dependency on a package absent from the universe is blocked at `ZenConfigurationSolver.cs` lines 38-43, exactly like one on a package with no candidates (`Solver.MissingDependencyBlocks`).
- The code checks neither satisfiability nor the timeout. The model adds the error `Infeasible` and has no timeout.

**The code and its comment disagree on line 26.** The comment in `ZenConfigurationSolver.cs` says the domain constraint is added "only if we actually have candidates", but line 27 adds it unconditionally. The model follows the code: a package with no candidates makes every assignment infeasible (`Solver.EmptyCandidatesInfeasible`).

## Model

| member | source | states |
|---|---|---|
| Versions.NullRangeIsAll | NuGetGraphSolver.Lib/Solver/ZenConfigurationSolver.cs:50 | a missing range and `VersionRange.All` both admit every version |
| Domain.DependencyIdListMembers | NuGetGraphSolver.Lib/UniverseBuilder/PackageUniverseBuilder.cs:39-41 | the ids the builder enumerates from a version list are exactly the ids some dependency of some group of some version names |
| Frameworks.FirstWithFramework | NuGetGraphSolver.Lib/Services/FrameworkCompatibilityService.cs:43-44 | finds the first group whose parsed moniker equals the given framework; none exactly when no group's does |
| Frameworks.FirstAny | NuGetGraphSolver.Lib/Services/FrameworkCompatibilityService.cs:38-39 | finds the first group whose framework is "any"; none exactly when no group's is |
| Frameworks.SelectNearestDependencyGroup | NuGetGraphSolver.Lib/Services/FrameworkCompatibilityService.cs:16-45 | no groups gives an empty "any" group. If the reducer names a nearest framework, the result is the first group with that framework. Otherwise it is the first "any" group, or none exactly when no group is "any". Any result for non-empty input is one of the groups |
| Frameworks.SelectionIgnoresDependencies | NuGetGraphSolver.Lib/Services/FrameworkCompatibilityService.cs:29-44 | two group lists with the same monikers select the group at the same position, whatever their dependencies |
| Metadata.ConversionDefaults | NuGetGraphSolver.Lib/Services/NuGetMetadataProvider.cs:47-74 | missing dependency sets give no groups. A set without a framework gets the "any" moniker. A set without packages gets no dependencies. A dependency without a range gets the all-versions range; its id and order are kept |
| Metadata.Dedupe | NuGetGraphSolver.Lib/Services/NuGetMetadataProvider.cs:29-76 | no two nodes share a version. Every node is built from the first entry of its version in source order. Every version in the entries is present |
| Metadata.InsertDescendingPermutes | NuGetGraphSolver.Lib/Services/NuGetMetadataProvider.cs:81-82 | inserting into the descending list adds exactly that node |
| Metadata.SortDescending | NuGetGraphSolver.Lib/Services/NuGetMetadataProvider.cs:81-82 | the result is strictly descending by version and a permutation of the input |
| Metadata.KeepCount | NuGetGraphSolver.Lib/Services/NuGetMetadataProvider.cs:83 | `Take`: none for a non-positive count, otherwise at most the count and at most what is available, and everything available when fewer than the count |
| Metadata.ReverseReorders | NuGetGraphSolver.Lib/Services/NuGetMetadataProvider.cs:85 | reversing the newest-first list keeps exactly its nodes and, since they are strictly descending, leaves them strictly ascending: the ascending re-sort |
| Metadata.NewestVersions | NuGetGraphSolver.Lib/Services/NuGetMetadataProvider.cs:42-86 | strictly ascending, empty when `maxVersions <= 0`, at most `maxVersions` entries. Each node comes from the first entry of its version. Every dropped version is older than every kept one. Nothing is dropped when fewer than `maxVersions` are kept |
| Metadata.GetPackageVersions | NuGetGraphSolver.Lib/Services/NuGetMetadataProvider.cs:22-89 | fails with an argument error on `packageId` exactly when the id is empty or whitespace; otherwise the result is strictly ascending |
| Metadata.FirstSourceWins | NuGetGraphSolver.Lib/Services/NuGetMetadataProvider.cs:31-45 | a kept version that entry y of source c also lists is built from an entry of an earlier source, or of source c at or before y, and carries that source's name |
| UniverseBuilder.Distinct | NuGetGraphSolver.Lib/UniverseBuilder/PackageUniverseBuilder.cs:26 | the initial queue holds each root exactly once and nothing else |
| UniverseBuilder.EffectiveList | NuGetGraphSolver.Lib/UniverseBuilder/PackageUniverseBuilder.cs:56-57 | a version with no groups has no effective dependencies; every effective dependency belongs to one of the version's groups |
| UniverseBuilder.EffectiveClosed | NuGetGraphSolver.Lib/UniverseBuilder/PackageUniverseBuilder.cs:38-59 | if every declared dependency id is a candidate, so is every effective one |
| UniverseBuilder.EnqueueMissing | NuGetGraphSolver.Lib/UniverseBuilder/PackageUniverseBuilder.cs:39-45 | the queue only grows at its end, by dependency ids that are not yet candidates. Afterwards every dependency id is a candidate or queued |
| UniverseBuilder.FetchReachable | NuGetGraphSolver.Lib/UniverseBuilder/PackageUniverseBuilder.cs:29-46 | every id is fetched at most once. It succeeds exactly when every id reachable from the roots fetches successfully. A failure names an error that some reachable id returned, and the failing fetch was the last one. On success the keys are exactly the reachable ids, each mapped to what its fetch returned |
| UniverseBuilder.BuildUniverse | NuGetGraphSolver.Lib/UniverseBuilder/PackageUniverseBuilder.cs:18-67 | succeeds exactly when every reachable fetch does, otherwise it fails with a reachable id's error. On success: the top-level set is the root set; the candidates are exactly the reachable ids with their fetched lists; and the effective map has one entry per version index. The universe is well formed, and closed under declared and effective dependencies |
| Solver.NullRangeAllowsEveryIndex | NuGetGraphSolver.Lib/Solver/ZenConfigurationSolver.cs:50 | a dependency without a range allows every index of its package |
| Solver.EmptyCandidatesInfeasible | NuGetGraphSolver.Lib/Solver/ZenConfigurationSolver.cs:25-27 | a package with no candidates makes every assignment infeasible, even when nothing depends on it |
| Solver.MissingDependencyBlocks | NuGetGraphSolver.Lib/Solver/ZenConfigurationSolver.cs:38-43 | if a dependency of (p, i) names a package that is absent or has no candidates, no feasible assignment picks i for p |
| Solver.ObjectiveRemove | NuGetGraphSolver.Lib/Solver/ZenConfigurationSolver.cs:62-64 | the sum splits at any of its packages, so the order of summation does not matter |
| Solver.ObjectiveOnlyTop | NuGetGraphSolver.Lib/Solver/ZenConfigurationSolver.cs:61-64 | the objective depends only on the indices of the optimised packages; transitive-only packages do not contribute |
| Solver.ObjectiveMonotone | NuGetGraphSolver.Lib/Solver/ZenConfigurationSolver.cs:61-64 | raising the indices of optimised packages never lowers the objective |
| Solver.ObjectiveOf | NuGetGraphSolver.Lib/Solver/ZenConfigurationSolver.cs:86 | the computed objective value equals the sum of the chosen indices |
| Solver.AssignmentsSound | NuGetGraphSolver.Lib/Solver/ZenConfigurationSolver.cs:20-28 | every enumerated assignment gives each package exactly one index within its domain |
| Solver.AssignmentsComplete | NuGetGraphSolver.Lib/Solver/ZenConfigurationSolver.cs:20-28 | every assignment within the domains is enumerated |
| Solver.PackageOrder | NuGetGraphSolver.Lib/Solver/ZenConfigurationSolver.cs:20 | lists each candidate package exactly once |
| Solver.ProjectRoundTrip | NuGetGraphSolver.Lib/Solver/ZenConfigurationSolver.cs:78-84 | the indices of the projected selection are the assignment, and each version string is that candidate's normalised version |
| Solver.BestOf | NuGetGraphSolver.Lib/Solver/ZenConfigurationSolver.cs:69-75 | returns a feasible assignment of the list that no feasible one in the list beats, or none when none is feasible |
| Solver.BestAssignment | NuGetGraphSolver.Lib/Solver/ZenConfigurationSolver.cs:67-75 | returns a feasible assignment that no feasible assignment beats, or none exactly when nothing is feasible |
| Solver.SolveForNewest | NuGetGraphSolver.Lib/Solver/ZenConfigurationSolver.cs:14-93 | fails with an unknown package exactly when an effective key or an optimised package is not a candidate, and names that package. Fails as infeasible only when no assignment is feasible. Otherwise it selects exactly one entry per candidate package; the selected indices are feasible and optimal for the optimised set, which defaults to the top-level packages; each entry carries the normalised version; and the objective value is the sum at that assignment |
| SolverExample.FeasibleAssignments | NuGetGraphSolver.Lib.UnitTests/SolverSmokeTests.cs:20-86 | in the smoke-test universe every feasible assignment picks B 2.1.0, and picking A 2.0.0 with it is feasible |
| SolverExample.SolveExample | NuGetGraphSolver.Lib.UnitTests/SolverSmokeTests.cs:88-91 | the solver selects A 2.0.0 and B 2.1.0 |

## Left out

- Z3, Zen and the 30-second solver timeout: an exhaustive search takes the solver's place. A timeout has no counterpart.
- What `Zen.Maximize` returns for an unsatisfiable model is library-defined. The model returns the distinct error `Infeasible`.
- The `KeyNotFoundException` of an unknown package id is modelled as the error `UnknownPackage`. This covers an optimised package or an effective key that is not a candidate.
- The 32-bit width of Zen's integers: indices and the objective are unbounded integers. The objective cannot wrap for fewer than about 2^31 candidates.
- `ObjectiveValue` is a `double` in the source. Here it is the integer sum it is converted from.
- NuGet.Versioning: `VersionRange.Satisfies`, `VersionComparer.VersionRelease` and `ToNormalizedString`. These are replaced by ranks and a bounds check. Pre-release and build-metadata rules, including the `includePrerelease` flag, are not modelled.
- NuGet.Frameworks: `ParseFolder`, `FrameworkReducer.GetNearest`, `IsAny` and the short folder name of "any". These are an abstract oracle, and "any" is the moniker `"any"`.
- The network fetches of `GetPackageVersionsAsync`, the `SourceCacheContext`, async `Task`s and the `CancellationToken` checks. These are I/O and concurrency; the builder takes the provider as a function.
- Null arguments: a null group list, null strings and a null `packageId` have no counterpart in the types. Only the empty or whitespace id is modelled.
- Case-insensitive id comparison: ids are taken as already case-folded.
- `AutoReferenced` and `DevelopmentDependency` are carried but never consulted. The provider leaves them at `false`.
- Hash-set enumeration order is not specified. The initial queue follows the order of the root list with repeats removed. The solver's enumeration order of packages is arbitrary.
- UniverseBuilder.BuildUniverse: requires a finite set, closed under dependency edges, that contains the roots. The source does not terminate without one unless a reachable fetch fails first; that case, an infinite reachable graph with a failing fetch, is excluded as well.
- UniverseBuilder.FetchReachable: carries the same finite dependency-closed bound as `BuildUniverse`, for the same reason, and so does not cover an infinite reachable graph in which a fetch fails.
- UniverseBuilder.Visit: one step of the fetch loop, under the same bound.
- Persistence in the graph stores, console output, CLI parsing, dependency injection and configuration defaults are outside the resolution core.
