# JDK ranking and default selection

This project models the ranking step of the JDK info service of
`appcd-plugin-jdk`. The detect engine gathers the JDKs found by one scan and
hands the list to `processResults`. That method does two things in place:

1. It sorts the list in ascending order. The version comparison decides
   first. The build number comes next, with a missing build counted as 0.
   The architecture string breaks the remaining ties.
2. It marks exactly one JDK as the default, using the engine's default path.

The model also covers how the list of search locations is assembled:
configured paths, then the platform's well-known locations.

Modules:

- `JdkInfoService` (`jdk_info_service.dfy`) holds the main definitions:
  - the `Jdk` class, whose path, version, build and architecture are
    constants and whose `default` field, the `result.default` flag the source
    writes at `src/jdk-info-service.js:120`, `:123` and `:129`, is mutable;
  - the comparator and its order lemmas;
  - the default-selection function and the in-place methods
    `SortResults`, `MarkDefault` and `ProcessResults`.
- `Version` (`version.dfy`) states what the ranking needs from the version
  module's `compare`. It must be a three-way comparison whose "not after"
  relation is a total preorder.
- `Strings` (`strings.dfy`) models `localeCompare` as lexicographic order on
  character codes. Its lemmas prove it is a total order.
- `Wrappers` (`wrappers.dfy`) defines `Option`.

The engine's default path is an `Option<string>` input. In the source,
`!engine.defaultPath` is a falsiness test, so both a missing path and the
empty string count as "unset" (`JdkInfoService.Unset`).

When the default path is unset, the *first* JDK after sorting becomes the
default, which is the lowest-ranked one (`src/jdk-info-service.js:119`).
The last JDK becomes the default only when a default path is set and no JDK
has that path. This is the case the comment at
`src/jdk-info-service.js:127` calls "last/newest".
`UnsetPicksLowestRanked` and `NoMatchPicksHighestRanked` state these two
cases.

## Model

| member | source | states |
|---|---|---|
| `JdkInfoService.ProcessResults` | src/jdk-info-service.js:98-132 | The array ends up as a permutation of its input. It is sorted under the comparator. A list of length 0 or 1 keeps its order. Each element's `default` is true exactly at `DefaultIndex` of the sorted paths, so a non-empty list has exactly one default. Path, version, build and architecture are constants, and the method never writes them. |
| `JdkInfoService.SortResults` | src/jdk-info-service.js:100-113 | The in-place sort leaves the array non-decreasing under the version, build, architecture comparator. The array is a permutation of what it was. |
| `JdkInfoService.Insert` | src/jdk-info-service.js:101-112 | One sorting step: given a sorted prefix of length `i`, the prefix of length `i + 1` becomes sorted. The array stays a permutation of its old contents, and every element after position `i` is left where it was. |
| `JdkInfoService.MarkDefault` | src/jdk-info-service.js:117-130 | After the single pass, plus the fallback for the last element, exactly the element at `DefaultIndex` has `default` set. The loop invariant says `found` holds exactly when an already visited element is marked. |
| `JdkInfoService.DefaultIndex` | src/jdk-info-service.js:116-130 | For a non-empty list the default is a valid index. With the default path unset (missing or empty) it is 0. When some path equals the default path, it is the lowest such index. Otherwise it is the last index. |
| `JdkInfoService.FirstMatch` | src/jdk-info-service.js:119 | Returns the index of the first path equal to the given one, which really has that path. No earlier path matches. Returns the length of the list when no path matches. |
| `JdkInfoService.UnsetPicksLowestRanked` | src/jdk-info-service.js:119-121 | In a sorted list, an unset default path makes the default rank no higher than every other JDK: the oldest wins, not the newest. |
| `JdkInfoService.NoMatchPicksHighestRanked` | src/jdk-info-service.js:127-130 | In a sorted list, a default path that no JDK has makes the default rank no lower than every other JDK. |
| `JdkInfoService.CompareByKeys` | src/jdk-info-service.js:101-112 | `Compare` orders lexicographically by the three keys. `a` comes before `b` exactly when its version is lower, or the versions tie and its build is lower, or both tie and its architecture comes first. The two compare equal exactly when all three keys tie. |
| `JdkInfoService.MissingBuildSortsAsZero` | src/jdk-info-service.js:107 | About the helper `BuildOrZero`, which counts a missing build as 0: a JDK with no build number compares with every other JDK, in either operand position, exactly as the same JDK with build 0 would. |
| `JdkInfoService.EmptyDefaultPathIsUnset` | src/jdk-info-service.js:119 | About the helper `Unset` (the falsiness test `!engine.defaultPath`): an empty default path selects the same default as a missing one, the first result. |
| `JdkInfoService.SetDefaultPathAcceptsOnlyItself` | src/jdk-info-service.js:119 | About `Unset` and the loop test `Accepts`: a non-empty default path lets the test accept a JDK exactly when its path equals the default path. |
| `JdkInfoService.Picked` | src/jdk-info-service.js:118-124 | The index the loop marks on its own is the first one whose path passes the loop's test (`Accepts`: default path unset, or equal to the path). It is the length of the list when no path passes. |
| `JdkInfoService.CompareAntisymmetric` | src/jdk-info-service.js:101-112 | The comparator puts `a` before `b` exactly when it puts `b` after `a`, given a valid version comparison. |
| `JdkInfoService.CompareTotal` | src/jdk-info-service.js:101-112 | Any two JDKs are ordered one way or the other, and every JDK is ordered with itself. |
| `JdkInfoService.CompareTransitive` | src/jdk-info-service.js:101-112 | The comparator's "not after" relation is transitive, so it is a total preorder and a sort by it is well defined. |
| `JdkInfoService.SortedByVersionThenBuildThenArch` | src/jdk-info-service.js:101-112 | In a sorted list, versions never decrease. Among equal versions, builds (missing = 0) never decrease. Among equal versions and builds, architectures never decrease. |
| `JdkInfoService.SearchPaths` | src/jdk-info-service.js:24 | The search locations are the configured paths in their given order, followed by the platform's default locations. The same expression is rebuilt on a configuration change at line 60. |
| `Strings.LocaleCompare` | src/jdk-info-service.js:111 | The architecture comparison returns -1, 0 or 1. |
| `Strings.LocaleCompareZeroIffEqual` | src/jdk-info-service.js:111 | Two architecture strings compare equal exactly when they are the same string. |
| `Strings.LocaleCompareAntisymmetric` | src/jdk-info-service.js:111 | Swapping the operands negates the result. |
| `Strings.LocaleCompareTransitive` | src/jdk-info-service.js:111 | "Not after" on strings is transitive. |

## Left out

- The service's activation and deactivation are left out, because there is no logic in them to verify. This covers creating the detect engine, its environment-variable, registry and filesystem watching, re-detection, and the async start and stop (`src/jdk-info-service.js:21-74`). They are foreign library calls and asynchronous lifecycle.
- The registry `transform` is left out (`src/jdk-info-service.js:44-50`). It is a foreign registry read whose only local logic is that an error becomes `false`.
- The observable result container and its change notifications are left out (`src/jdk-info-service.js:22`, `src/jdk-info-service.js:55`, `src/jdk-info-service.js:59-61`). They belong to a third-party library.
- `checkDir` is left out (`src/jdk-info-service.js:83-89`). It is a thin wrapper over the external JDK probe.
- `src/index.js` is left out. It only registers the service with the host.
- The version module is not part of this model. Its `compare` is an arrow parameter, and the only thing required of it is `Version.IsComparator`, which makes it a valid three-way comparison.
- `Strings.LocaleCompare` ignores locale and collation rules. It compares character codes lexicographically.
- SortResults: the host language's sort algorithm and its stability are not modelled. The model sorts by insertion with adjacent swaps, and its contract is the one the source relies on: sorted and a permutation. Nothing is said about the relative order of JDKs that compare equal.
- ProcessResults: requires the array to hold distinct objects. This is an assumption, that each entry comes from its own `detect` call in `checkDir` (`src/jdk-info-service.js:85`); the detect engine that collects the entries is not part of this model. If the same object sat at two positions, the later visit of the marking loop would clear the flag set by the earlier one.
- SearchPaths: the configured value is taken as already converted to a list (the `arrayify` helper is not part of this model). The platform's locations are a parameter rather than a lookup in the locations table keyed by the running platform.
- `processResults` only reads `engine.defaultPath` (`src/jdk-info-service.js:119`) and nothing in `src/jdk-info-service.js` writes it, so the model takes it as an input and says nothing about how it is set.
