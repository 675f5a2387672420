# Poetry project detection and RPM package analysis

This project models two parts of a container-image scanner:

- **Poetry detection** (`lib/analyzer/applications/python/poetry.ts`). A snapshot maps file paths to file contents. The scanner does three things with it:
  - It groups the files by directory (`groupFilesByDirectory`).
  - It keeps the directories whose files are exactly a `pyproject.toml` and a `poetry.lock` (`findManifestLockPairsInSameDirectory`).
  - For each such pair, it asks the lock-file parser for a dependency graph. It emits one scan result per graph built, holding a dependency-graph fact, a tested-files fact and an identity (`poetryFilesToScannedProjects`).
- **RPM package analysis** (`lib/analyzer/package-managers/rpm.ts`). Each installed package becomes one inventory entry with a Package URL. Its qualifiers (`module`, `repositories`, `epoch`, `distro`) are set one condition at a time (`purl`). `analyze` and `mapRpmSqlitePackages` build the image's analysis from the package list.

The modules are:

- `Wrappers`: an `Option` type.
- `Paths`: a model of Node's `path.dirname`, `path.basename` and `path.join` for `/`-separated paths.
- `Strings`: models of JavaScript's `split`, `join`, `String(n)` for integers and ASCII `toLowerCase`.
- `Poetry`: the Poetry scanner.
- `RpmPackages`: the RPM analyzer.

The three loops of `poetry.ts` are methods with loop invariants. Each is proved equal to a recursive specification function on the snapshot:

| method | specification function |
|---|---|
| `GroupFilesByDirectory` | `Dirs` and `NamesIn` |
| `FindManifestLockPairsInSameDirectory` | `ExpectedPairs` |
| `PoetryFilesToScannedProjects` | `Scanned` |

The lemmas state what these functions guarantee. `purl` is a method that sets the qualifiers step by step, proved equal to the function `PurlOf`.

Two points of the code shape the model:

- **A failed graph.** The code has no `try`/`catch`. It skips a pair only when `buildDepGraph` returns a falsy value (poetry.ts:37-40). The model's builder returns `None` for that case. A builder that throws rejects the whole scan, and that is not modelled; see "Left out".
- **The pairing test.** A directory qualifies when it has two entries and both recognised names are among them (poetry.ts:72-80). `IsPoetryProjectExactly` proves that this means its list is exactly the two names, in either order.

## Model

| member | source | states |
|---|---|---|
| Paths.LastSeparator | lib/analyzer/applications/python/poetry.ts:97-98 | The result is -1 or the index of a `/`, and no `/` follows it. |
| Paths.Dirname | lib/analyzer/applications/python/poetry.ts:97 | `path.dirname`: the text before the last `/`, `/` when that is the first character, and `.` when there is none. `DirnameThenBasename` states how it fits with the base name. |
| Paths.DirnameThenBasename | lib/analyzer/applications/python/poetry.ts:97-98 | A path without `/` lies in `.` and is its own base name. Otherwise the path is its directory followed by `/` and its base name, except in the root, where it is `/` followed by the base name. |
| Paths.Basename | lib/analyzer/applications/python/poetry.ts:98 | A base name contains no `/` and is no longer than the path. |
| Paths.Join | lib/analyzer/applications/python/poetry.ts:82-83 | `path.join` of a directory and one file name: the name alone after `""` or `.`, no separator added after a trailing `/`, one `/` otherwise. `JoinEnds` and `DirnameBasenameOfJoin` state its properties. |
| Paths.JoinEnds | lib/analyzer/applications/python/poetry.ts:82-83 | The joined path ends with the file name and, unless the directory is `""` or `.`, starts with the directory. |
| Paths.NormalAbsoluteParts | lib/analyzer/applications/python/poetry.ts:97-98 | For a normalised absolute path, the directory is absolute with no trailing `/`, and the base name is one non-empty component other than `.` and `..`. |
| Paths.JoinDirnameBasename | lib/analyzer/applications/python/poetry.ts:82-83 | Joining a normalised path's directory and base name gives the path back. |
| Paths.DirnameBasenameOfJoin | lib/analyzer/applications/python/poetry.ts:82-83 | Joining a directory with a file name and splitting the result gives back the same directory and file name. |
| Poetry.DirsMembers | lib/analyzer/applications/python/poetry.ts:96-101 | A directory is a key iff some path lies in it. |
| Poetry.DirsDistinct | lib/analyzer/applications/python/poetry.ts:99-101 | Each directory is a key once. |
| Poetry.NamesInNonEmpty | lib/analyzer/applications/python/poetry.ts:99-102 | A directory's list is non-empty iff the directory is a key: no key maps to an empty list. |
| Poetry.NamesInMember | lib/analyzer/applications/python/poetry.ts:97-102 | Every name listed under a directory is the base name of a path in that directory. |
| Poetry.PathListed | lib/analyzer/applications/python/poetry.ts:96-102 | Every path's base name is listed under its directory. |
| Poetry.PathListedOnce | lib/analyzer/applications/python/poetry.ts:96-102 | With distinct normalised paths, each path's base name is listed exactly once under its directory. |
| Poetry.NameCountTotal | lib/analyzer/applications/python/poetry.ts:96-103 | The lists together hold as many names as there are paths: no file is lost or invented. |
| Poetry.AbsoluteDirsAreNotIndices | lib/analyzer/applications/python/poetry.ts:70 | For paths that start with `/`, normalised or not, no directory name is an array index (digits without a leading zero). So the creation order the model lists keys in is the order `Object.keys` visits them. |
| Poetry.GroupStep | lib/analyzer/applications/python/poetry.ts:97-102 | One loop iteration turns the grouping of the first i paths into the grouping of the first i+1 paths. |
| Poetry.GroupFilesByDirectory | lib/analyzer/applications/python/poetry.ts:92-105 | Keys are listed in order of first appearance. The map's keys are exactly those directories. Each list holds the base names of that directory's paths, in key order. |
| Poetry.IsPoetryProject | lib/analyzer/applications/python/poetry.ts:72-80 | A directory's list qualifies when it has two entries and includes both `pyproject.toml` and `poetry.lock`. `IsPoetryProjectExactly` states what that means. |
| Poetry.IsPoetryProjectExactly | lib/analyzer/applications/python/poetry.ts:72-80 | A directory qualifies iff its list is exactly `[pyproject.toml, poetry.lock]` in either order. |
| Poetry.PoetryDirsAmongMembers | lib/analyzer/applications/python/poetry.ts:70-85 | The qualifying directories are exactly the visited directories whose list qualifies, and there are no more of them than directories visited. |
| Poetry.PoetryDirsAmongDistinct | lib/analyzer/applications/python/poetry.ts:70-85 | Distinct directories give distinct qualifying directories. |
| Poetry.PoetryDirsSpec | lib/analyzer/applications/python/poetry.ts:64-89 | A directory yields a pair iff a file lies in it and its list qualifies. Each directory yields at most one pair. There are no more pairs than directories. |
| Poetry.PairPathsInSnapshot | lib/analyzer/applications/python/poetry.ts:80-84 | For normalised absolute paths, both paths of every emitted pair are keys of the snapshot. They share a directory and have base names `pyproject.toml` and `poetry.lock`. |
| Poetry.LocatedPairsInSnapshot | lib/analyzer/applications/python/poetry.ts:21-33 | For a snapshot of distinct normalised absolute paths, every located pair names two keys of the snapshot, so the lookups at poetry.ts:28-33 find content. The pairs have the recognised base names, and there are no more of them than directories. |
| Poetry.FindManifestLockPairsInSameDirectory | lib/analyzer/applications/python/poetry.ts:64-89 | The pairs are exactly one joined manifest/lock pair per qualifying directory, in key order. |
| Poetry.SingleProjectPairs | lib/analyzer/applications/python/poetry.ts:64-105 | A snapshot of one manifest and its lock file in one directory yields exactly one pair, made of those two paths. |
| Poetry.ScannedAppend | lib/analyzer/applications/python/poetry.ts:26-59 | Pairs are scanned independently: the results of a concatenation are the concatenation of the results. |
| Poetry.ResultFor | lib/analyzer/applications/python/poetry.ts:44-58 | A result holds the graph fact and the tested-files fact with the base names of the manifest and the lock. Its identity has the graph's package manager name as type and the manifest path as target file. |
| Poetry.PairIsolation | lib/analyzer/applications/python/poetry.ts:31-58 | A pair whose graph is not built is skipped and leaves the other results unchanged. A pair whose graph is built contributes exactly its own result, in its place. |
| Poetry.SingleProjectScan | lib/analyzer/applications/python/poetry.ts:12-62 | For a one-project snapshot whose graph is built, the scan gives exactly one result. Its target file is the manifest, its tested files are the two base names, and its type is the graph's package manager name. |
| Poetry.PoetryFilesToScannedProjects | lib/analyzer/applications/python/poetry.ts:12-62 | The results are `Scanned` over the located pairs. There are no more results than directories. Every result holds a graph fact and the tested files `[pyproject.toml, poetry.lock]`. Its type is the graph's package manager name, and its target file is a manifest path from the snapshot. |
| Strings.Split | lib/analyzer/package-managers/rpm.ts:42 | A split has at least one field, and no field contains the separator. |
| Strings.SplitWithoutSeparator | lib/analyzer/package-managers/rpm.ts:42 | A string without the separator splits into itself alone. |
| Strings.SplitAtFirstSeparator | lib/analyzer/package-managers/rpm.ts:42 | The first field is the text before the first separator, and the rest is the split of what follows it. |
| Strings.JoinSplit | lib/analyzer/package-managers/rpm.ts:42 | Joining the fields of a split with the separator gives the string back. |
| Strings.SplitJoin | lib/analyzer/package-managers/rpm.ts:47 | Splitting a join of separator-free parts gives the parts back. |
| Strings.JoinWith | lib/analyzer/package-managers/rpm.ts:47 | `join`: the parts with the separator between them. `JoinSplit` and `SplitJoin` state that it and `Split` undo each other. |
| Strings.NatToDecimal | lib/analyzer/package-managers/rpm.ts:51 | The decimal form is non-empty, all digits, and has no leading zero except for 0. |
| Strings.IntToDecimal | lib/analyzer/package-managers/rpm.ts:51 | `String(n)` is non-empty, starts with `-` iff `n` is negative, and is otherwise decimal digits. |
| Strings.NatToDecimalRoundTrip | lib/analyzer/package-managers/rpm.ts:51 | The decimal form of a natural number reads back as that number. |
| Strings.IntToDecimalRoundTrip | lib/analyzer/package-managers/rpm.ts:51 | `String(n)` of an integer is an optional `-` followed by digits, and it parses back to `n`. |
| Strings.ToLowerAscii | lib/analyzer/package-managers/rpm.ts:60 | Lower-casing keeps the length, leaves no upper-case ASCII letter and changes no other character. |
| RpmPackages.HasModule | lib/analyzer/package-managers/rpm.ts:41 | `if (pkg.module)`: the module is present and not the empty string. |
| RpmPackages.HasEpoch | lib/analyzer/package-managers/rpm.ts:50 | `if (pkg.epoch)`: the epoch is present and not 0. |
| RpmPackages.ModuleQualifier | lib/analyzer/package-managers/rpm.ts:42-43 | The first colon field, a colon, and the second field or `undefined` when there is none. `ModuleQualifierOfFields` and `ModuleQualifierWithoutColon` state the two cases. |
| RpmPackages.ModuleQualifierOfFields | lib/analyzer/package-managers/rpm.ts:41-44 | For a module `a:b` or `a:b:...`, the qualifier is `a:b`, and later fields are dropped. |
| RpmPackages.ModuleQualifierWithoutColon | lib/analyzer/package-managers/rpm.ts:41-44 | A module without a colon gives `<module>:undefined`. |
| RpmPackages.Qualifiers | lib/analyzer/package-managers/rpm.ts:40-57 | Only the four keys can occur. Each key is present iff its condition holds (module set and non-empty, repositories non-empty, epoch set and non-zero, OS release given), and each value is what the source computes for it. |
| RpmPackages.PurlType | lib/analyzer/package-managers/rpm.ts:60 | The type is `"Rpm"` lower-cased, which is `"rpm"`. |
| RpmPackages.PurlOf | lib/analyzer/package-managers/rpm.ts:34-69 | The URL has type `rpm`, no subpath, the package name and formatted version, and the OS name or `""` as namespace. The qualifiers are absent iff no condition holds. Otherwise they are the non-empty `Qualifiers` map. |
| RpmPackages.Purl | lib/analyzer/package-managers/rpm.ts:34-69 | Setting the vendor and qualifiers step by step gives exactly `PurlOf`. |
| RpmPackages.RepositoriesRecoverable | lib/analyzer/package-managers/rpm.ts:46-48 | If no repository name has a comma, splitting the `repositories` qualifier on `,` gives the list back. |
| RpmPackages.EpochRecoverable | lib/analyzer/package-managers/rpm.ts:50-52 | The `epoch` qualifier is an integer's decimal form that reads back as the epoch. |
| RpmPackages.AnalyzedEntry | lib/analyzer/package-managers/rpm.ts:21-29 | One inventory entry: the package name, formatted version, no source, empty provides and deps, no auto-installed flag, and the URL arguments `PurlOf`. |
| RpmPackages.AnalyzeEntries | lib/analyzer/package-managers/rpm.ts:20-30 | There is one entry per package, in order. Each has the package's name and formatted version, and no source, provides, deps or auto-installed flag. Its URL names the same package and version as the entry. |
| RpmPackages.Analyze | lib/analyzer/package-managers/rpm.ts:11-32 | The analysis names the image, has type Rpm, and holds one entry per package with the package's name. |
| RpmPackages.MapRpmSqlitePackages | lib/analyzer/package-managers/rpm.ts:71-97 | A missing package list gives an empty Rpm analysis of the image. Otherwise the result is exactly `analyze`'s. |

## Left out

- Logging (`console.log` at poetry.ts:15-42) is not modelled. It changes no result as long as the manifest and lock keys exist, and `PairPathsInSnapshot` proves they do under the scan's requires. For a missing key, poetry.ts:28 throws; see the `PoetryFilesToScannedProjects` line below.
- `async`/`await` and `Promise.resolve` are not modelled. Each operation returns its value directly.
- Inside `buildDepGraph` (the lock-file parser) and `DepGraph`:
  - The parser is a function parameter that returns `Some(graph)` or `None`. `None` stands for the falsy value the scanner skips.
  - A graph is modelled only by the package manager name the scanner reads.
  - A parser that throws is not modelled. The code has no `try`/`catch`, so a throw rejects the whole scan.
- `formatRpmPackageVersion` comes from another library. It is a function parameter (`VersionFormatter`).
- Serialising a `PackageURL` to text (`toString`, with its percent-encoding and qualifier ordering) belongs to another library. The `Purl` field of an entry holds the constructor arguments, not the string.
- Node's `path` functions are modelled only for `/`-separated paths. Path normalisation (`..`, `.`, repeated `/`), Windows paths and a trailing `/` are not modelled.
- Poetry.GroupFilesByDirectory: `dirs` lists the directories in creation order. JavaScript's `Object.keys` lists array-index keys first, in numeric order. So for relative paths such as `b/pyproject.toml` followed by `7/pyproject.toml`, the source visits `7` before `b`, and the model lists `b` first. For paths that start with `/` no directory is an array index (`AbsoluteDirsAreNotIndices`), and the two orders agree.
- Poetry.GroupFilesByDirectory: a directory named like an `Object.prototype` property (`constructor`, `toString`, `__proto__`, ...) is not grouped as in the source. There, `!map[directory]` at poetry.ts:99 is false for such a name, so no list is created, and the `.push` at poetry.ts:102 throws a `TypeError` that rejects the scan. The model groups such a directory like any other.
- Poetry.FindManifestLockPairsInSameDirectory: the pairs follow the model's directory order. For relative paths with an array-index directory name, that order differs from the source's (see the `GroupFilesByDirectory` line). The scan requires absolute paths, so its order is unaffected.
- Poetry.PoetryFilesToScannedProjects requires every key to be a normalised absolute path:
  - it starts with `/`
  - it has no empty, `.` or `..` component
  - it has no trailing `/`

  Keys outside these conditions are not modelled. What the source does with them depends on the string `path.join` at poetry.ts:82-83 returns:
  - A relative key that is already normalised, such as `app/pyproject.toml`, comes back unchanged. The source then behaves as the model does, but the requires leaves such keys out, because the model takes directories to be absolute.
  - Most other keys are normalised to a string that is not a key (`/a/../pyproject.toml` becomes `/pyproject.toml`). The lookup at poetry.ts:28 then reads `undefined`, and `.substring` on it throws, which rejects the whole scan before the builder runs.
  - The normalised string can itself be another key. For the snapshot `/a/./pyproject.toml`, `/a/./poetry.lock`, `/a/pyproject.toml`, `/a/poetry.lock`, both groups `/a/.` and `/a` yield the pair `/a/pyproject.toml`, `/a/poetry.lock`. The lookups succeed, and the source emits the same result twice instead of rejecting the scan.
- Strings.IntToDecimal: JavaScript's `String` prints integers of magnitude `10^21` or more in exponent form (`1e+21`), while the model prints every digit. An RPM epoch is a 32-bit header value, far below that bound. A `NaN` or fractional epoch, which `HasEpoch` cannot express, is not modelled either.
- The `AnalysisType` enumeration is modelled with its `Rpm` variant only. It is the only one these functions use.
- The `release`, `size` and `arch` fields of a package are carried but not read, as in the source.
