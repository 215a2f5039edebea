# aws-crt-benchmarker scripts, modelled in Dafny

The aws-crt-benchmarker repository benchmarks S3 clients (the CRT clients and their
SDK-based neighbours) against S3 workloads. This project models the parts of its
Python scripts that compute something, and proves what they compute:

- **The dependency resolver** (`scripts/py/dependencies.py`). It holds a table of
  components and their direct dependencies. `get_all_dependencies` lists a component's
  transitive dependencies in build order. `get_all_dependents` lists the components
  that transitively depend on one. `is_built` probes one directory per component.
  - `DependencyGraph` states all of this as pure functions over the table.
  - `Dependencies` models the scripts' own state: the recursive `visit` closure with its
    shared `visited` set and `result` list becomes the class `DepthFirstWalk`, whose
    `Visit` method updates those two fields.
- **Workload names** (`WorkloadNames`). Names such as `upload-15MiB-1x.json` or
  `download-5GiB-10_000x-ram.json` are parsed, and size texts such as `5GiB` are
  converted to bytes. The same code appears in `generate-tmp-workload.py` and
  `compare.py`, and `size_from_str` also in `build-workloads.py`; it is modelled once.
- **The task list of a workload** (`WorkloadTasks`). A workload holds `n` tasks. Their
  keys are `{action}/{dirname}/{i}`, where `i` runs from 1 to `n` and is zero-padded to
  the digit count of `n`. All three workload writers share this loop.
- **The workload writers**:
  - `GenerateTmpWorkload` builds a workload from a name;
  - `BuildWorkloads` builds one from a source record, with defaults and validation;
  - `Compare` builds the combined workload of several names, and maps a client to its
    build type.
- **The comma-separated list argument** of `cdk/per-instance-job.py` (`PerInstanceJob`).

`Strings` supplies the Python string and number behaviour the scripts rely on, written
out in Dafny:
- `str.replace`, `split`, `join`, `strip`, `lower`;
- `int()` on a digit string;
- zero-padded and `_`-grouped integer formatting.

`WorkloadNames` writes out the one regular expression the scripts use, `re.match` of
`(\d+)(KiB|MiB|GiB|bytes|byte)$`: `DigitRun` is the greedy digit group, `UnitAtEnd` the
unit group with the `$` anchor (which also matches before one final newline), and
`SizeFromStr` the whole match.

Each operation the scripts run as a loop is a method proved against a pure function:
- `DepthFirstWalk.Visit`, `GetDependents`, `GetAllDependencies` and `GetAllDependents`;
- `AppendTasks`;
- `GenerateWorkload`, `BuildWorkload`, `GenerateTasksFromWorkloadName` and
  `ParsePayloadNames`.

The lemmas then prove what the scripts promise about that function.

## Model

| member | source | states |
|---|---|---|
| DependencyGraph.RegistryWellFormed | scripts/py/dependencies.py:12-38 | The shipped table is declared in dependency order: its keys are distinct and each row lists only components keyed in earlier rows. |
| DependencyGraph.WellFormedClosed | scripts/py/dependencies.py:12-38 | In such a table every listed dependency is itself a key, keys are distinct, and no component lists itself. |
| DependencyGraph.Acyclic | scripts/py/dependencies.py:12-38 | Such a table has no cycle: a path of one edge or more, forward or reverse, never returns to where it started. |
| DependencyGraph.DirectDependenciesOfKey | scripts/py/dependencies.py:41-43 | The lookup yields the list of the row keyed by the name, and no dependencies for a name that is not a key. |
| DependencyGraph.DirectDependentsMembership | scripts/py/dependencies.py:68-74 | A name is a direct dependent of `c` exactly when some row keyed by that name lists `c`. |
| DependencyGraph.DirectDependents | scripts/py/dependencies.py:68-74 | The scan yields at most one dependent per row of the table. |
| DependencyGraph.DependentsInvertDependencies | scripts/py/dependencies.py:68-74 | `v` is a direct dependent of `u` exactly when `v` is a key whose direct dependencies contain `u`. |
| DependencyGraph.ReachesReversed | scripts/py/dependencies.py:77-98 | Following dependents from `a` reaches `b` exactly when following dependencies from `b` reaches `a`. |
| DependencyGraph.VisitCorrect | scripts/py/dependencies.py:54-62 | One `visit` keeps the walk invariant: no repeats, post-order, only reachable names. It appends only new names, finishes every neighbour of the visited name, and outputs that name last when it is entered fresh. |
| DependencyGraph.Visit | scripts/py/dependencies.py:54-62 | `visit` only grows the visited set, marks its name visited, only appends to the result, and in the reverse walk never outputs the starting component. |
| DependencyGraph.VisitEach | scripts/py/dependencies.py:59-60 | The loop over the neighbours only grows the visited set and only appends to the result, and in the reverse walk never outputs the starting component. |
| DependencyGraph.VisitEachReady | scripts/py/dependencies.py:54-62 | Visiting names whose dependencies are all visited already, or listed before them, outputs exactly those names in that order. |
| DependencyGraph.AllDependencies | scripts/py/dependencies.py:46-65 | The list is never empty and ends with the component itself. |
| DependencyGraph.AllDependenciesMembers | scripts/py/dependencies.py:46-65 | The result has no repeats and ends with the component. It holds exactly the names the component transitively depends on, with itself. |
| DependencyGraph.AllDependenciesBuildOrder | scripts/py/dependencies.py:46-65 | Build order: each listed component's direct dependencies are listed, and every one of them comes before it. |
| DependencyGraph.AllDependenciesUnknown | scripts/py/dependencies.py:41-65 | A name the table does not know yields a list holding only that name. |
| DependencyGraph.ListingAllEarlierKeys | scripts/py/dependencies.py:46-65 | A row that lists every earlier key, in table order, resolves to exactly those keys followed by itself. |
| DependencyGraph.AwsCS3BuildOrder | scripts/py/dependencies.py:26-28 | `aws-c-s3` resolves to the ten C libraries in the table's order, followed by itself. |
| DependencyGraph.AllDependents | scripts/py/dependencies.py:77-98 | The component itself is never listed among its dependents. |
| DependencyGraph.AllDependentsMembers | scripts/py/dependencies.py:77-98 | The result has no repeats and leaves out the component. It holds exactly the other names that transitively depend on the component. |
| DependencyGraph.AllDependentsOrder | scripts/py/dependencies.py:77-98 | Top-down order: every direct dependent is listed, and each listed component comes before every listed component it directly depends on. |
| DependencyGraph.DependentsDependenciesConverse | scripts/py/dependencies.py:46-98 | For `c != d`: `d` is among the dependents of `c` exactly when `c` is among the dependencies of `d`. |
| DependencyGraph.CycleTerminatesSilently | scripts/py/dependencies.py:54-62 | On a table with the cycle a→b→a, the visited set stops the walk, and each name is output once: `[b, a]`. |
| Dependencies.GetDependencies | scripts/py/dependencies.py:41-43 | An unknown name has no dependencies; a key has the list its row declares. |
| Dependencies.GetDependents | scripts/py/dependencies.py:68-74 | The scan returns the table's direct dependents in declaration order. A name is in the result exactly when its row lists the component. |
| Dependencies.DepthFirstWalk.constructor | scripts/py/dependencies.py:51-52 | A walk starts with an empty visited set and an empty result. |
| Dependencies.DepthFirstWalk.Neighbours | scripts/py/dependencies.py:59 | The names `visit` descends into: the direct dependencies forward, the direct dependents in reverse. |
| Dependencies.DepthFirstWalk.Visit | scripts/py/dependencies.py:54-62 | After `visit(comp)`, the `visited` and `result` fields equal the specification walk applied to the state before the call. |
| Dependencies.GetAllDependencies | scripts/py/dependencies.py:46-65 | The result ends with the component, has no repeats, holds exactly its transitive dependencies, and lists every dependency before its dependent. |
| Dependencies.GetAllDependents | scripts/py/dependencies.py:77-98 | The result leaves out the component, has no repeats, holds exactly its transitive dependents, and lists every dependent before what it depends on. |
| Dependencies.JoinPath | scripts/py/dependencies.py:110 | `os.path.join(a, b)` ends with `b`, and starts with `a` unless `b` is absolute. |
| Dependencies.ProbePath | scripts/py/dependencies.py:107-120 | A runner is probed at a path ending in `runner-s3-` and its name without `runner-`; the Rust transfer manager at one ending in `release`; any other component at one ending in its own name. |
| Dependencies.IsBuilt | scripts/py/dependencies.py:101-120 | With a plain install directory and repository root: a runner `runner-<rest>`, where `rest` holds no further `runner-`, is built exactly when `<install>/lib/cmake/runner-s3-<rest>` exists; the Rust transfer manager exactly when `<repo>/source/clients/aws-s3-transfer-manager-rs/target/release` exists; any other component exactly when `<install>/lib/cmake/<component>` exists. |
| Dependencies.StripRunnerPrefix | scripts/py/dependencies.py:109 | Removing every `runner-` from `runner-<rest>` leaves `rest` when `rest` holds no other `runner-`. |
| Dependencies.RunnerProbePath | scripts/py/dependencies.py:107-111 | A runner `runner-<rest>` is probed at `<install>/lib/cmake/runner-s3-<rest>`. |
| Dependencies.RunnerS3CProbePath | scripts/py/dependencies.py:107-111 | The shipped runner `runner-s3-c` is probed at `<install>/lib/cmake/runner-s3-s3-c`. |
| Dependencies.RustProbePath | scripts/py/dependencies.py:112-116 | The Rust transfer manager is probed at `<repo>/source/clients/aws-s3-transfer-manager-rs/target/release`. |
| Dependencies.LibraryProbePath | scripts/py/dependencies.py:117-120 | Any other component is probed at `<install>/lib/cmake/<component>`. |
| Dependencies.JoinPlain | scripts/py/dependencies.py:110 | `os.path.join` of a path without a trailing `/` and a relative part puts exactly one `/` between them. |
| WorkloadNames.UnitNamed | scripts/py/generate-tmp-workload.py:19-28 | A recognised unit text is exactly the name of the unit returned: one of `KiB`, `MiB`, `GiB`, `bytes`, `byte`. |
| WorkloadNames.DigitRun | scripts/py/generate-tmp-workload.py:19 | The greedy `\d+`: the run is all digits, and the character after it, if any, is not a digit. |
| WorkloadNames.SizeFromStrAccepts | scripts/py/generate-tmp-workload.py:17-31 | Digits followed by a unit name, with at most one trailing newline, give the digits' value times 1, 1024, 1024² or 1024³. |
| WorkloadNames.SizeFromStrOnly | scripts/py/generate-tmp-workload.py:17-31 | Every accepted size text has that form: digits, a unit, and an optional newline. |
| WorkloadNames.SizeExampleMiB | scripts/py/generate-tmp-workload.py:17-31 | `15MiB` is 15 728 640 bytes. |
| WorkloadNames.SizeExampleGrouped | scripts/py/generate-tmp-workload.py:17-31 | A size with digit grouping, `10_000KiB`, is rejected as an illegal size. |
| WorkloadNames.ParseName | scripts/py/generate-tmp-workload.py:34-65 | An accepted name has action upload or download, a size part without `-`, and files on disk exactly when the name without `.json` does not end in `-ram`. |
| WorkloadNames.SizeFromStr | scripts/py/generate-tmp-workload.py:17-31 | A rejected size text fails with `IllegalSize` of that text; an accepted one starts with a digit. |
| WorkloadNames.CountTextUngroups | scripts/py/generate-tmp-workload.py:63 | A count text is digits and `_` with at least one digit exactly when removing `_` leaves a non-empty digit string; such a text has no sign and no `.`. |
| WorkloadNames.ParseNameRejects | scripts/py/generate-tmp-workload.py:36-63 | Each rejection is stated from the name's text, in the source's order. Too few parts exactly when the name without `.json` and `-ram` has fewer than two `-`. Otherwise that base is `action-size-count`, and the error is a bad action, else a count without a final `x`, else a count that is not digits and `_` before the `x`. |
| WorkloadNames.ParseNameOnly | scripts/py/generate-tmp-workload.py:34-65 | Every accepted name is, without `.json`, a composed name `action-size-{count}x[-ram]`, whose count text is digits and `_` worth the parsed number of files. |
| WorkloadNames.ParseNameAccepts | scripts/py/generate-tmp-workload.py:34-65 | Conversely, every name of that form is accepted with exactly those fields. |
| WorkloadNames.NameLacksJson | scripts/py/generate-tmp-workload.py:37 | A composed name holds no `.json`, so removing `.json` from it changes nothing. |
| WorkloadNames.WithoutJsonOfName | scripts/py/generate-tmp-workload.py:37 | Removing `.json` from a composed name with the extension gives the composed name. |
| WorkloadNames.RamSuffix | scripts/py/generate-tmp-workload.py:40-43 | A composed name ends in `-ram` exactly when its files are in memory; dropping the suffix gives its base. |
| WorkloadNames.SplitNameBase | scripts/py/generate-tmp-workload.py:46-58 | `action-size-count` splits into action, size and a count part that joins back to the count. |
| WorkloadNames.ParseComposedName | scripts/py/generate-tmp-workload.py:34-65 | Parsing the composed name `action-size-{count}x[-ram][.json]` gives back the action, the size and the flag, and the count with `_` removed. |
| WorkloadNames.ParseDecimalName | scripts/py/compare.py:88-121 | Round trip: `action-size-{n}x` parses to `(action, size, n, on disk)`. |
| WorkloadNames.ParseGroupedName | scripts/py/generate-tmp-workload.py:34-65 | Round trip: `action-size-{n:_}x[-ram][.json]` parses to `(action, size, n, flag)`. |
| WorkloadTasks.Width | scripts/py/generate-tmp-workload.py:93 | The padding width is at least one digit. |
| WorkloadTasks.Tasks | scripts/py/generate-tmp-workload.py:96-103 | `range(n)` gives one task per file: `n` tasks when `n > 0`, none otherwise. |
| WorkloadTasks.AppendTasks | scripts/py/generate-tmp-workload.py:96-103 | The loop returns the list it was given, followed by the workload's task list. |
| WorkloadTasks.FileNameNumber | scripts/py/generate-tmp-workload.py:93-97 | Task `i`'s file name is all digits, reads back as `i + 1`, and has exactly the padding width. |
| WorkloadTasks.TasksShape | scripts/py/generate-tmp-workload.py:96-103 | Every task carries the action and size. Its key is `{action}/{dirname}/` followed by a file name worth its position plus one. |
| WorkloadTasks.TaskKeysDistinct | scripts/py/generate-tmp-workload.py:92-103 | No two tasks of a workload share a key. |
| WorkloadTasks.TaskKeysSameLength | scripts/py/generate-tmp-workload.py:92-103 | All keys of a workload have the same length, the shared prefix plus the padding width. |
| GenerateTmpWorkload.TmpWorkload | scripts/py/generate-tmp-workload.py:68-103 | A rejected name fails because it does not parse or with `IllegalSize` of its size part. An accepted one parses, its comment names the file, its flag is the parsed one, and it holds one task per file. |
| GenerateTmpWorkload.GenerateWorkload | scripts/py/generate-tmp-workload.py:68-103 | The method returns exactly the workload the name describes, or the error of the first failing step. |
| GenerateTmpWorkload.TmpWorkloadOutcome | scripts/py/generate-tmp-workload.py:68-103 | A name is accepted exactly when it parses and its size parses. The workload is then version 2, with the comment naming the file, no checksum, 10 repeats and 600 seconds. Its files are on disk exactly when there is no `-ram`. It holds one task per file, all with the same action and byte size and with distinct keys. |
| GenerateTmpWorkload.TmpWorkloadOfName | scripts/py/generate-tmp-workload.py:68-103 | Round trip from the fields: the name of `n` files of `digits` units gives `n` tasks of `digits × unit` bytes under `{size}-{n:_}x`, carrying the name's flag. |
| BuildWorkloads.BuildWorkload | scripts/py/build-workloads.py:45-99 | The method returns exactly the workload the source describes, or the error of the first failing check. |
| BuildWorkloads.ChecksumSuffix | scripts/py/build-workloads.py:70-71 | The suffix is empty exactly when the checksum is absent or empty; otherwise it is `-` and one character per checksum character. |
| BuildWorkloads.Built | scripts/py/build-workloads.py:45-99 | An accepted source has action upload or download and an allowed checksum; its workload copies the checksum and holds one task per file. |
| BuildWorkloads.BuiltAccepts | scripts/py/build-workloads.py:51-99 | A source with action upload or download, a size of digits and a unit with at most a final newline, and a checksum of None, CRC32, CRC32C, SHA1 or SHA256 is accepted, and every task has the size the digits and unit give. |
| BuildWorkloads.BuiltOnly | scripts/py/build-workloads.py:51-65 | Conversely, every accepted source has exactly that shape: the validations reject everything else. |
| BuildWorkloads.BuiltOutcome | scripts/py/build-workloads.py:56-99 | An accepted source gives version 2. Each optional member is copied or takes its default: comment "", 1 file, on disk, no checksum, 10 repeats, 600 seconds. The workload holds `numFiles` tasks (none if that is not positive) of the parsed size, with distinct keys. |
| BuildWorkloads.BuiltDefaults | scripts/py/build-workloads.py:56-99 | A source with only action and size gives one task keyed `{action}/{size}-1x/1`. |
| BuildWorkloads.FilesOnDiskLeavesTasks | scripts/py/build-workloads.py:73-75 | The files-on-disk setting changes neither acceptance nor any task: the `-ram` suffix it computes is never used. |
| BuildWorkloads.ChecksumSuffixes | scripts/py/build-workloads.py:70-71 | Each allowed checksum adds its lower-case name to the directory: `-crc32`, `-crc32c`, `-sha1`, `-sha256`. No checksum adds nothing. |
| BuildWorkloads.ChecksumDirectoriesDiffer | scripts/py/build-workloads.py:68-71 | Different allowed checksum settings give different directory names, none containing `/`. |
| BuildWorkloads.KeysInDifferentDirectories | scripts/py/build-workloads.py:96 | Keys with the same action in different `/`-free directories never collide. |
| BuildWorkloads.ChecksumSeparatesKeys | scripts/py/build-workloads.py:68-99 | Two accepted sources that differ only in checksum share no key. |
| BuildWorkloads.FormatGroupedLacksSlash | scripts/py/build-workloads.py:69 | A count formatted with `_` grouping never contains `/`. |
| Compare.NameTasks | scripts/py/compare.py:124-146 | A rejected name fails because it does not parse or with `IllegalSize` of its size part. An accepted one parses, returns the parsed flag, and gives one task per file. |
| Compare.GenerateTasksFromWorkloadName | scripts/py/compare.py:124-146 | The method returns exactly the tasks and flag the name describes, or the error of the first failing step. |
| Compare.NameTasksOutcome | scripts/py/compare.py:124-146 | A name is accepted exactly when it parses and its size parses. It then gives one task per file, with the parsed action and byte size and distinct keys; the flag is false exactly for a `-ram` name. |
| Compare.NameTasksOfDecimalName | scripts/py/compare.py:188-189 | The name built from a payload item, `action-size-{n}x`, gives `n` tasks of the size under `{size}-{n:_}x`, on disk. |
| Compare.ParsePayloadNames | scripts/py/compare.py:204-222 | On workload names, the loop returns the combined workload: version 2, no comment or checksum, 10 repeats, 600 seconds, or the first name's error. |
| Compare.Combined | scripts/py/compare.py:209-213 | The list is accepted only if every name in it is. |
| Compare.CombinedFailurePropagates | scripts/py/compare.py:209-213 | Once a prefix of the names is rejected, the whole list is rejected with the same error. |
| Compare.CombinedSuccessIff | scripts/py/compare.py:209-213 | The list is accepted exactly when every name is. |
| Compare.CombinedFirstError | scripts/py/compare.py:209-213 | A rejected list carries the error of its first rejected name, and every name before it is accepted. |
| Compare.CombinedAppend | scripts/py/compare.py:209-213 | The names of `a + b` give the tasks of `a` followed by those of `b`, on disk only if both are. |
| Compare.CombinedSingle | scripts/py/compare.py:209-213 | A single name gives exactly its own tasks and flag. |
| Compare.CombinedFilesOnDisk | scripts/py/compare.py:207-213 | The combined files are on disk exactly when every name's are. |
| Compare.NamesWorkload | scripts/py/compare.py:204-222 | The combined workload is accepted exactly when every name is. |
| Compare.NamesWorkloadFields | scripts/py/compare.py:204-222 | The combined workload is accepted exactly when every name is. It then has version 2, no comment, no checksum, 10 repeats and 600 seconds, and holds the combined tasks and flag. |
| Compare.GetBuildType | scripts/py/compare.py:269-280 | A client that gets a build type is in that type's list. |
| Compare.GetBuildTypeTable | scripts/py/compare.py:269-280 | A client gets a build type exactly when it is in that type's list. The lists do not overlap. |
| Compare.GetBuildTypeUnknown | scripts/py/compare.py:269-280 | A client is rejected exactly when no list contains it. |
| PerInstanceJob.StripEach | cdk/per-instance-job.py:22 | The result has one item per piece, the piece stripped of surrounding whitespace. |
| PerInstanceJob.DropEmpty | cdk/per-instance-job.py:23 | The filter keeps only non-empty pieces of the input and keeps every non-empty piece, so it is never longer. It returns nothing exactly when every piece is empty. |
| PerInstanceJob.DropEmptyAppend | cdk/per-instance-job.py:23 | Filtering `a + b` filters `a` and `b` in turn and concatenates: the comprehension works piece by piece. |
| PerInstanceJob.DropEmptyIndices | cdk/per-instance-job.py:23 | Order: the kept pieces are the input's pieces at strictly increasing positions, and those positions are exactly the non-empty pieces. |
| PerInstanceJob.CommaSeparatedList | cdk/per-instance-job.py:20-26 | A rejection carries "List is empty"; an accepted list has no more items than pieces between commas, and none of them empty. |
| PerInstanceJob.CommaSeparatedListPieces | cdk/per-instance-job.py:20-26 | For every argument: the items are exactly the stripped non-blank pieces between commas, in their order, and the argument is rejected exactly when there is none. |
| PerInstanceJob.ItemsAreStrippedPieces | cdk/per-instance-job.py:20-26 | Each item of an accepted list is the stripped text of a piece between commas. It is non-empty, has no whitespace at either end, and holds no comma. |
| PerInstanceJob.RejectedIffBlank | cdk/per-instance-job.py:20-26 | The argument is rejected with "List is empty" exactly when every piece between commas is blank. |
| PerInstanceJob.JoinedItemsRoundTrip | cdk/per-instance-job.py:20-26 | Round trip: clean items joined with commas parse back to the same items in the same order. |
| Strings.GroupedUngroups | scripts/py/generate-tmp-workload.py:63 | Removing `_` from a count written as `{n:_}` leaves digits worth `n`. |
| Strings.ValueZeroPad | scripts/py/generate-tmp-workload.py:97 | A zero-padded number reads back as itself. |
| Strings.SplitCount | cdk/per-instance-job.py:21 | `split` on a separator gives one piece more than the separator occurs. |
| Strings.UngroupDigits | scripts/py/generate-tmp-workload.py:63 | Removing `_` leaves only digits exactly when every character is a digit or `_`, and leaves something exactly when some character is not `_`. |
| Strings.StripEmptyIff | cdk/per-instance-job.py:22-23 | A piece strips to nothing exactly when it is all whitespace. |

## Left out

- Command-line parsing, `main` functions, printing and logging are left out: they only carry values in and out.
- File reads and writes (workload sources, the JSON output) are left out. A workload is returned as a value, and a source is given as a record.
- Running builds and benchmarks, git, S3, subprocesses, metrics and graphs in `compare.py` and `per-instance-job.py` are left out: they are external effects, not computation.
- The JSON-file branch of `parse_payload` (`compare.py:163-203`) is left out, because it depends on untyped JSON content. Only the name it builds at line 188 is modelled, by `Compare.NameTasksOfDecimalName`.
- `is_built` asks the filesystem through `os.path.isdir`. Here the existing directories are a set, and the repository root, derived from `__file__`, is a parameter.
- `os.path.join` is modelled for POSIX paths only.
- WorkloadTasks.Width: uses the number of decimal digits of `n` for `int(math.log10(n)) + 1`. The floating-point logarithm is not modelled; for very large `n` it may round differently.
- WorkloadNames.ParseName: `int()` is modelled on ASCII digit strings only. A count part with a sign or surrounding whitespace, which Python's `int()` would accept, is treated as a rejection: the name `upload-1MiB--5x` splits into a count part `-5x`, and Python reads `int("-5")` as -5, where the model rejects the name. Non-ASCII digits are not modelled either.
- WorkloadNames.SizeFromStr, WorkloadNames.ParseName: integers are unbounded here. CPython 3.11 and later refuse to convert a decimal text of more than 4300 digits, so `int(m.group(1))` in `size_from_str`, `int(count)` in the name parser and the `f"{n:_}"` formatting raise where the model accepts.
- WorkloadNames.SizeFromStr: `\d` is modelled as the ASCII digits; Python's regex also matches other Unicode decimal digits.
- Strings.Strip and Strings.Lower work on ASCII whitespace and ASCII letters only; Unicode case mapping is not modelled.
- The messages of the exceptions are not modelled. Errors are values of `WorkloadNames.Error`, and the two copies of the name parser differ only in the "too few parts" message. An unknown client in `get_build_type` gives `None` instead of an exception.
- Python `assert` statements in `build_workload` are modelled as rejections. Running Python with `-O`, which removes them, is not modelled.
- The source members of `build_workload` are taken to have the JSON types the script annotates: strings, integers and booleans. A member present with the value `null` is not modelled, except for `checksum`, where it reads like a missing member.
- The `INSTANCE_TYPES` table and the Batch job submission in `per-instance-job.py` are left out, as they are configuration and cloud calls.
