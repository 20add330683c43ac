# Large-file chunking in PortMaster's `build_data.py`

PortMaster's data builder keeps every file of 90 MiB or more out of the git
repository. Such a file is stored as a chain of parts of at most 50 MiB named
`<file>.part.001`, `<file>.part.002`, …. On every run, the builder does three things:

- It reconciles the two representations of every large asset:
  - it reassembles the whole file when only its parts exist;
  - it re-splits the whole file when the parts disagree with it;
  - it leaves both alone when their digests agree.
- It lists in the port's `.gitignore` the large files and the base names of all part files.
- It sets an exit status when ports collected warnings or errors.

This project models that core of `tools/build_data.py` in Dafny and proves what
it guarantees.

| file | module | models |
|---|---|---|
| `text.dfy` | `Text` | the Python string operations the core relies on: see below |
| `part_names.dfy` | `PartNames` | part names `f"{name}.part.{k:03d}"` and how the scan parses them back |
| `chunking.dfy` | `Chunking` | where the part boundaries fall: a pure function `Parts` of the source bytes |
| `disk.dfy` | `Storage` | the file system as a map from path to bytes; class `Disk` with the methods `Split` (`split_large_files`) and `Combine` (`combine_large_files`), each with its read and write loops |
| `discovery.dfy` | `Discovery` | the ignore-list reading and the large-file registry of `load_port`: method `LoadPort`, a fold that specifies it, and an independent characterisation of its result |
| `reconciler.dfy` | `Reconciler` | `check_large_files`: the four-way decision, one step per asset, and method `Reconcile` over the disk |
| `report.dfy` | `Report` | the closing report of `main`: the bad-port counters and the exit status |

The Python string operations modelled in `Text` are:

- `strip`
- `startswith`
- `in` on strings
- `isdigit`
- `rsplit('.', 2)`
- the `:03d` format
- `casefold`
- `sort` with a key

The main results:

- Splitting then concatenating the parts in index order gives back the source bytes: `Storage.SplitRoundTrip`.
- Splitting is idempotent: `Storage.SplitIdempotent`.
- Every part but the last holds between `chunk` and the 1 MiB-rounded capacity. The last holds fewer than `chunk` bytes, possibly none: `Chunking.PartSizes`.
- With the real constants every full part holds exactly 50 MiB: `Chunking.ExactParts`.
- The scan registers exactly the large files and the part bases, and lists exactly their part files: `Discovery.LoadPortCorrect`.
- The ignore list is sorted case-insensitively, and the scan never adds an entry twice: also `Discovery.LoadPortCorrect`.
- After an asset's step, its whole file and its parts have equal digests. After a combine or a split they agree byte for byte: `Reconciler.StepReconciles`.
- A registry built by the scan whose parts exist never makes the run die on a missing part: `Reconciler.NeverAborts`.
- The exit status is 255 exactly when the check flag is set and some port that was not updated has errors. It is 127 exactly when the flag is set, no such port has errors and one has warnings. Otherwise it is 0: `Report.ExitStatus`.

Sizes are parameters of the model:

- `chunk`: the bound a part must reach before the writer moves on (50 MiB in the source).
- `block`: the read size (1 MiB in the source).

The writer fills a part in whole blocks until it holds at least `chunk` bytes. A part therefore holds up to `Capacity(chunk, block)` bytes: the least multiple of `block` that is at least `chunk`.

When `chunk` is not a multiple of `block`, a part of exactly `Capacity` bytes can end the source. The writer then still opens one more, empty, part. The model keeps that behaviour.

Digests are a function parameter `hash`. The digest of a part list is the digest of the parts read one after another.

The comment above the pruning loop (`tools/build_data.py:132`) speaks of unlinking extra files, in the plural. The loop itself (`tools/build_data.py:133-135`) never advances `part_number`, and the model follows the code:

- The loop deletes part `n + 1` if it exists. That path is then gone, so the loop stops.
- Parts `n + 2` and beyond, left by an earlier split of a longer file, stay on disk: `Storage.StalePartsSurvive`.
- They do no harm to the round trip over parts 1..n: `Storage.SplitRoundTrip`.
- The next scan does list them with the asset's parts. What happens then depends on their contents:
  - If a surviving stale part holds bytes, the digests differ and the whole file is split again. That happens on every later run, because each re-split deletes only part `n + 1`, which is already absent.
  - If every surviving stale part is empty, the digests agree. This happens when the stale part is the empty last part the writer leaves when a length is a multiple of the part size. The asset is then kept, and the stale part stays for good: `Reconciler.EmptyStalePartKept`.

Python sorts part lists by plain string order. `PartNames.PartOrderIsIndexOrder` shows that this is index order for up to 999 parts. `PartNames.PartOrderAfter999` shows that part 1000 sorts before part 999.

## Model

| member | source | states |
|---|---|---|
| Storage.Disk.Split | tools/build_data.py:113-135 | the new file system is `SplitFiles` of the old: parts 1..n written with the chunk boundaries of `Parts`, then part n + 1 deleted; the read loops are proved against `Parts` |
| Storage.Disk.WritePart | tools/build_data.py:119-130 | one part file holds the bytes read from `start`. At end of input it holds fewer than `chunk` bytes. Otherwise it holds exactly the capacity, or the rest of the source when that is shorter, and at least `chunk` bytes |
| Storage.Disk.Combine | tools/build_data.py:138-148 | the whole file is replaced by the concatenation of the listed parts in list order, read block by block; no other path changes |
| Storage.SplitRoundTrip | tools/build_data.py:113-135 | after a split, the parts 1..n exist and their concatenation in index order equals the source, which the split leaves unchanged |
| Storage.SplitIdempotent | tools/build_data.py:113-135 | splitting the same file twice leaves the file system as one split does |
| Storage.SplitHoldsChain | tools/build_data.py:117-135 | after a split, part j holds the j-th chunk of the source for every j in 1..n, and part n + 1 does not exist |
| Storage.SplitKeepsSource | tools/build_data.py:115-115 | the source is only read: it keeps its bytes |
| Storage.SplitLeavesOthers | tools/build_data.py:113-135 | a path that is none of parts 1..n + 1 is present after the split exactly when it was before, with the same bytes |
| Storage.SplitKeepsPaths | tools/build_data.py:132-135 | the only path a split removes is part n + 1 of the source |
| Storage.StalePartsSurvive | tools/build_data.py:132-135 | a part numbered n + 2 or higher that existed before the split still exists, unchanged |
| Storage.SplitDeterministic | tools/build_data.py:113-131 | the parts depend only on the source bytes: two file systems holding the same source get the same part count and the same part contents |
| Storage.ChainContents | tools/build_data.py:119-119 | when parts 1..n hold the sequence ps, reading parts 1..n in order gives back ps |
| Storage.RewriteSame | tools/build_data.py:119-130 | writing the parts a file system already holds changes nothing |
| Chunking.Capacity | tools/build_data.py:122-129 | a part's capacity is at least `chunk` and less than `chunk + block` |
| Chunking.CapacityReads | tools/build_data.py:122-129 | the capacity is a whole number of reads |
| Chunking.ExactCapacity | tools/build_data.py:122-129 | when `chunk` is a multiple of `block`, the capacity is exactly `chunk` |
| Chunking.Parts | tools/build_data.py:117-130 | the writer always produces at least one part, even for an empty source |
| Chunking.PartsConcat | tools/build_data.py:117-130 | concatenating the parts in order gives back the source |
| Chunking.PartSizes | tools/build_data.py:122-130 | every part but the last holds at least `chunk` bytes and at most the capacity; the last holds fewer than `chunk` |
| Chunking.ExactParts | tools/build_data.py:117-130 | with `chunk` a multiple of `block`: `len / chunk + 1` parts, every full part exactly `chunk` bytes, the last one the `len % chunk` trailing bytes (empty when `chunk` divides the length) |
| Chunking.Split120MiB | tools/build_data.py:32-32 | a 120 MiB file with the 50 MiB bound and 1 MiB reads becomes parts of 50, 50 and 20 MiB |
| PartNames.PartBase | tools/build_data.py:78-84 | a path the test of line 84 accepts starts with its base followed by `.part.`, so it holds `.part.` and took the part branch of line 78 |
| PartNames.PartName | tools/build_data.py:119-119 | a part name is the base name followed by `.part.` and at least three digits |
| PartNames.PartNameParses | tools/build_data.py:79-85 | `rsplit('.', 2)` of a part name gives back the base, `part` and the padded number, so the scan files the part under its base |
| PartNames.PartNameInjective | tools/build_data.py:119-119 | distinct (base, index) pairs give distinct part names |
| PartNames.PartBaseShape | tools/build_data.py:79-84 | a path the scan accepts as a part is its base plus `.part.` plus a non-empty run of digits |
| PartNames.PartOrderIsIndexOrder | tools/build_data.py:85-86 | for indices below 1000, the string order of part names is the order of their indices, in both directions |
| PartNames.PartOrderAfter999 | tools/build_data.py:86-86 | part 1000 sorts before part 999 |
| Text.Strip | tools/build_data.py:51-51 | the stripped line neither starts nor ends with whitespace |
| Text.StripStart | tools/build_data.py:51-51 | drops exactly the leading whitespace: the result is a suffix, it does not start with whitespace, and everything dropped is whitespace |
| Text.StripEnd | tools/build_data.py:51-51 | drops exactly the trailing whitespace: the result is a prefix, it does not end with whitespace, and everything dropped is whitespace |
| Text.StripIdempotent | tools/build_data.py:51-51 | stripping twice is stripping once |
| Text.Pad3 | tools/build_data.py:119-119 | the `:03d` format is all digits, exactly three of them below 1000, and the plain decimal from 1000 on |
| Text.Pad3Value | tools/build_data.py:119-119 | the padded number reads back as the number |
| Text.Pad3Injective | tools/build_data.py:119-119 | distinct numbers get distinct padded forms |
| Text.Decimal | tools/build_data.py:119-119 | the decimal form is all digits, with one, two or three digits exactly in the ranges below 10, 100 and 1000 |
| Text.DecimalValue | tools/build_data.py:119-119 | the decimal form reads back as the number |
| Text.RSplit2 | tools/build_data.py:79-79 | `rsplit('.', 2)` yields three pieces exactly when the string holds at least two dots |
| Text.LastDot | tools/build_data.py:79-79 | finds the last `.` of a string, or reports that there is none |
| Text.RSplit2Pieces | tools/build_data.py:79-79 | the three pieces of `rsplit('.', 2)` joined with dots give back the string, and the last two pieces hold no dot |
| Text.RSplit2Join | tools/build_data.py:79-79 | `rsplit('.', 2)` of `a.b.c`, where b and c hold no dot, gives back a, b and c |
| Text.PartInfixSplits | tools/build_data.py:78-79 | a name holding `.part.` always splits into three pieces, so the unpacking never fails |
| Text.RSplit2Prefix | tools/build_data.py:79-81 | splitting a path and splitting its file name give the same last two pieces; the first pieces differ by the directory |
| Text.Fold | tools/build_data.py:98-98 | the sort key has the length of the name and holds no upper-case ASCII letter |
| Text.FoldEqualIffSameUpToCase | tools/build_data.py:98-98 | two names get the same sort key exactly when they differ only in the case of ASCII letters |
| Text.LexLessTransitive | tools/build_data.py:86-86 | Python's string order is transitive |
| Text.LexLessTotal | tools/build_data.py:86-86 | any two distinct strings are ordered one way or the other |
| Text.LexLessAsymmetric | tools/build_data.py:86-86 | no two strings are each less than the other |
| Text.Insert | tools/build_data.py:86-86 | inserting adds exactly the one element |
| Text.InsertSorted | tools/build_data.py:86-86 | inserting into a sorted list keeps it sorted |
| Text.SortBy | tools/build_data.py:98-98 | the sort result is ordered by its key and is a permutation of its input |
| Discovery.ReadIgnoresMembers | tools/build_data.py:48-55 | an entry of the ignore list is exactly a stripped line of `.gitignore` that is neither blank nor a comment |
| Discovery.AddIgnore | tools/build_data.py:81-82 | a name is appended only when absent: membership gains the name, and no other count changes |
| Discovery.SetDefault | tools/build_data.py:96-96 | `setdefault` adds the key with an empty list at the end of the dict's order when it is new, and changes nothing when it is already there |
| Discovery.AddPart | tools/build_data.py:85-86 | the key's list gains exactly the new part and is sorted; the dict's order is that of `setdefault`; the other lists are untouched |
| Discovery.SetDefaultWellFormed | tools/build_data.py:96-96 | registering a large file keeps the registry well formed: each key once in the order, lists sorted, lists holding parts of their key |
| Discovery.AddPartWellFormed | tools/build_data.py:84-86 | appending a part to its base's list and re-sorting keeps the registry well formed |
| Discovery.VisitKeys | tools/build_data.py:78-96 | one entry adds to the dict exactly the key it contributes |
| Discovery.VisitOrder | tools/build_data.py:85-96 | one entry appends its key to the dict's order exactly when the key is new |
| Discovery.VisitLists | tools/build_data.py:84-86 | one entry adds its own path to the list of the key it is a part of, and changes no list in any other way |
| Discovery.VisitIgnores | tools/build_data.py:81-94 | one entry adds the ignore entry it contributes exactly when it is absent |
| Discovery.ScanWellFormed | tools/build_data.py:61-96 | the whole scan keeps the registry well formed |
| Discovery.PartFileNotRegistered | tools/build_data.py:78-88 | a file with `.part.` in its name can only create the key of its own base, never a key for itself |
| Discovery.LargeFileRegistered | tools/build_data.py:90-96 | a file without `.part.` is registered exactly when it has at least 90 MiB, with an empty list when new, and an existing list is kept |
| Discovery.ScanOrder | tools/build_data.py:78-96 | the dict's insertion order is the order in which the walk first contributes each key |
| Discovery.ScanKeys | tools/build_data.py:78-96 | a path is a registry key exactly when some entry contributes it |
| Discovery.ScanLists | tools/build_data.py:84-86 | each key's list holds, as a multiset, exactly the part files of that key in the walk |
| Discovery.NoKeyNoParts | tools/build_data.py:84-86 | a path that is not a key has no part files in the walk |
| Discovery.ScanIgnores | tools/build_data.py:81-94 | the scan keeps each `.gitignore` line's count, adds each contributed name at most once, and adds nothing else |
| Discovery.LoadPort | tools/build_data.py:48-98 | the loops of `load_port` compute the fold `LoadPortResult` |
| Discovery.ReadIgnoreFile | tools/build_data.py:48-55 | the loop over the lines of `.gitignore` computes `ReadIgnores` |
| Discovery.VisitEntry | tools/build_data.py:65-96 | one iteration of the scan loop on the list and the dict computes `Visit` |
| Discovery.ScanEntries | tools/build_data.py:61-96 | the scan loop over the walk's entries computes the fold `ScanAll` |
| Discovery.LoadPortCorrect | tools/build_data.py:48-98 | the result is characterised without the fold: registry keys in the order the walk first contributes them, part lists and ignore entries as the entries contribute them, the ignore list sorted case-insensitively and free of repeats when the file was |
| Reconciler.Step | tools/build_data.py:153-173 | one asset's step aborts the run exactly when a listed part is missing; an aborted run stays as it is; the errors grow only by one "Wut?" for an asset with neither representation |
| Reconciler.Decide | tools/build_data.py:164-173 | report when neither digest exists, combine when only the parts exist, split when the whole file exists and the digests differ, keep when they agree; each as an if-and-only-if |
| Reconciler.Reconcile | tools/build_data.py:151-173 | the loop over the registry in insertion order computes `ReconcileFirst`, the asset-by-asset fold of `Step`, and stops at the first missing part |
| Reconciler.ReconcileAsset | tools/build_data.py:153-173 | one iteration: dies on a missing part, otherwise reports, combines, splits or keeps as `Step` says |
| Reconciler.StepReconciles | tools/build_data.py:164-173 | after the step for an asset that has a representation, the whole file and its parts both exist and have equal digests; after a combine or a split they are equal byte for byte |
| Reconciler.CombineThenKeep | tools/build_data.py:169-173 | after a combine, the same asset's next step keeps both as they are |
| Reconciler.ReportContinues | tools/build_data.py:164-166 | an asset with neither representation adds one "Wut?" error and the loop goes on |
| Reconciler.EmptyStalePartKept | tools/build_data.py:158-173 | an empty stale part listed after parts whose concatenation is the whole file leaves the digests equal, so the asset is kept and the stale part stays |
| Reconciler.StepKeepsOtherParts | tools/build_data.py:132-135 | the step for one asset never deletes a listed part of another asset of the same registry |
| Reconciler.PartsStayPresent | tools/build_data.py:152-173 | while the loop runs over a scan-built registry, no part of an asset still to come disappears, and the run is alive |
| Reconciler.NeverAborts | tools/build_data.py:158-159 | over a scan-built registry whose listed parts exist, `hash_files` never meets a missing part |
| Reconciler.AbortedStays | tools/build_data.py:159-159 | once a missing part ends the run, the later assets are not touched |
| Reconciler.WellFormedListed | tools/build_data.py:79-86 | in a scan-built registry, every key has a list and no key is one of its own parts |
| Report.CountPositive | tools/build_data.py:184-199 | a counter is positive exactly when some port that was not updated has a message of its kind |
| Report.Tally | tools/build_data.py:184-199 | the loop counts the ports that were not updated and have warnings, and those that have errors |
| Report.StatusOf | tools/build_data.py:201-208 | 255 when the check flag is set and there are errors; 127 when it is set, there are no errors and there are warnings; 0 otherwise |
| Report.ExitStatus | tools/build_data.py:184-208 | the exit status in terms of the ports themselves, each case as an if-and-only-if |

## Left out

- The directory walk (`tools/build_data.py:58-75`) is not modelled step by step. Its result is a parameter: the sequence of entries it meets, each with its directory, name, file flag and size.
- The port-name check at the start of `load_port` (`tools/build_data.py:40-42`) is not modelled. `name_cleaner` and `error` live in a helper module that is not part of this model.
- Writing `.gitignore` and the diagnostic `print`s (`tools/build_data.py:100-108`, `168`, `190-198`) are not modelled. They produce output only.
- `hash_file` and `hash_files` are not modelled: they live in the same helper module. A digest is a function parameter. `hash_files` is taken to digest the parts read in list order.
- `hash_files` is also taken to raise on a missing part. Nothing catches the exception, so the model ends the run (`Run.aborted`).
- The iteration of `main` over the port directories (`tools/build_data.py:177-182`) is not modelled. The `MESSAGES` dictionary and the `updated_ports` set are inputs of `Report.ExitStatus`.
- I/O errors, partial writes and interruption are not modelled. Reads and writes always succeed.
- Text.Fold: `casefold` is modelled as ASCII lower-casing. Non-ASCII case folding is not captured.
- Text.IsDigits: `isdigit` is modelled as ASCII digits. Other Unicode digits are not accepted.
- Text.SortBy: states that the result is ordered by its key and is a permutation of the input. It does not state that names equal up to case keep their input order, which Python's stable sort guarantees.
- Discovery.ScanLists: states each list as a multiset. The order follows from the lists being sorted (`Discovery.ScanWellFormed`).
- Reconciler.Reconcile: requires that no asset is among its own parts. The source makes no such demand, but `load_port` always guarantees it (`Reconciler.WellFormedListed`).
- Storage.Disk.Split: requires the source file to exist. The source calls it only after `hash_file` found the file.
- The lines read from `.gitignore` are not deduplicated (`tools/build_data.py:55`). The model keeps them as read, so the ignore list is free of repeats only when the file was.
