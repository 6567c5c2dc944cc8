# broccoli-dependency-funnel, modelled in Dafny

`BroccoliDependencyFunnel` is a Broccoli plugin with one input tree and an entry module.
In **include** mode its output is the entry's dependency graph. In **exclude** mode its
output is every other file of the input. Between builds it holds four fields:

- `_depGraph`, the sorted module list of the graph;
- `_nonDepGraph`, the sorted list of the other files;
- a snapshot (an `fs-tree-diff` tree of path and stat entries) of each.

On every build it takes one of five outcomes:

- a cache hit;
- a cache hit in include mode, where only files outside the graph changed;
- a patch of the complement, in exclude mode;
- the no-entry branch;
- a full rebuild: resolve the graph, clear the output, copy.

The model has these modules:

- `Paths`: paths as strings. It holds `path.join` of one component, `path.dirname`, the chain of parent directories, JavaScript's default string order and `Array.prototype.sort()` (an insertion sort, proved ordered and a permutation).
- `FileSystem`: the input as a read-only tree of `readdir` listings (`Tree`) and `fs.statSync` as a lookup in it. The output is a class `Output` whose `nodes` map output-relative paths to directories, links and patched files, with `""` standing for the output directory itself. `symlink-or-copy`, `mkdirp`, `fs.unlinkSync` and `rimraf` are methods of `Output`.
- `FilterDirectory`: `filterDirectory` as a method with a `for` loop, proved equal to a recursive function. Soundness, completeness, order and no-duplicates are proved about that function.
- `CopyFile`: `copyFile` as a method over `Output`, proved against a function of the old output. Its skip, retry and failure cases are proved as lemmas.
- `TreeDiff`: the part of `fs-tree-diff` the funnel uses, given concrete definitions: snapshots, `calculatePatch`, `applyPatch`. The patch is empty exactly when the snapshots are equal. Applying it changes exactly the entries that differ.
- `Graph`: `_getFSTree`, `nextNonDepGraph`, entry resolution, the graph built from the walker's answer, and the loop of `copy` as a function.
- `Mode`: the constructor's `include ^ exclude` check on JavaScript values.
- `Funnel`: the class `DependencyFunnel` with the four fields, its `Build` and `Copy` methods, the function `BuildSpec` that `Build` is proved against, and the lemmas about the outcomes.

What the model takes as parameters:

- `mr-dep-walk` is the parameter `walked`, the module list the walker returns for the entry. `Build` requires it to have no repeated path.
- The platform's refusal to link or copy (permissions, a full disk) is the parameter `broken`, the set of destinations where `symlink-or-copy` throws.

The model follows the code in these places, although they are probably not what the authors meant:

- Every branch that finds the graph unchanged recomputes `_nonDepGraph` and re-snapshots it (`src/index.js:75-80`), even the plain cache hit.
- The no-entry branch leaves the four fields as they are. In include mode it does not clear the output. In exclude mode it copies the top-level `readdirSync` entries onto the output without clearing it first (`src/index.js:117-131`).
- `copyFile` removes an existing destination only after a failed first attempt, and cannot remove a directory there. So in exclude mode the no-entry branch throws whenever a previous rebuild left a directory at the name of a top-level input entry. `Funnel.NoEntryExcludeThrowsOnDirectory` proves this.

The model departs from the code in two places, the corrected halves of the two findings below:

- `Funnel.Configure` accepts exactly when one of `include` and `exclude` is truthy. That is what the error text at `src/index.js:37` says, while the `^` at `src/index.js:36` differs on some numbers.
- A failed full rebuild keeps the previous fields. As written, the lists are changed and the snapshots are not. After a failed first build, the next build calls `calculatePatch` on an undefined snapshot at `src/index.js:71` and throws a TypeError. After a later failure it compares the new graph against the previous graph's stale snapshot.

## Model

| member | source | states |
|---|---|---|
| `Paths.SortSpec` | src/index.js:157 | `modules.sort()` returns an ordered list that is a permutation of its input |
| `Paths.SortDistinct` | src/index.js:56 | sorting a list without repetitions gives a strictly ascending list of exactly the same strings |
| `Paths.NotInOwnChain` | src/utils/copy-file.js:28 | `mkdirp` of a destination's parent never creates the destination itself |
| `FileSystem.Names` | src/index.js:126 | `readdirSync` gives one name per entry, in listing order |
| `FileSystem.MakeDirs` | src/utils/copy-file.js:28 | when nothing but directories stands on the way, `mkdirp` keeps what exists, adds every missing directory from the root down, and nothing else; afterwards the whole chain is directories |
| `FileSystem.Unlinked` | src/utils/copy-file.js:32-36 | an unlink whose error is ignored can only remove the path itself, and leaves a directory in place |
| `FileSystem.Output.SymlinkOrCopy` | src/utils/copy-file.js:18 | the link succeeds exactly when the source exists, nothing is at the destination, the parent is a directory and the platform accepts it; on success only the destination changes, on failure nothing |
| `FileSystem.Output.Mkdirp` | src/utils/copy-file.js:28 | reports failure (ENOTDIR) exactly when a non-directory stands on the way, and then changes nothing; otherwise the output becomes the old one with the directory chain made |
| `FileSystem.Output.Unlink` | src/utils/copy-file.js:33 | reports failure exactly for a missing path or a directory, and removes only the path |
| `FileSystem.Output.Rimraf` | src/index.js:160 | the output directory and everything in it are gone |
| `FilterDirectory.FilterDirectory` | src/utils/filter-directory.js:14-31 | the loop over a listing, with its recursive calls, returns exactly the files the recursive specification lists |
| `FilterDirectory.FilteredSingle` | src/utils/filter-directory.js:22-27 | a directory entry contributes its subtree's files; a file contributes its own path when the predicate holds |
| `FilterDirectory.FilteredSound` | src/utils/filter-directory.js:20-27 | every returned path satisfies the predicate and is the prefix joined with the names along a route that ends at a file, never a directory |
| `FilterDirectory.FilteredComplete` | src/utils/filter-directory.js:18-29 | every file reachable by a route whose path satisfies the predicate is returned |
| `FilterDirectory.FilteredAppend` | src/utils/filter-directory.js:18-31 | results follow listing order: the files of a listing split in two are the files of each part, concatenated |
| `FilterDirectory.FilteredUnder` | src/utils/filter-directory.js:21-25 | every returned path lies below one of the listing's own entries |
| `FilterDirectory.FilteredDistinct` | src/utils/filter-directory.js:18-31 | with unique sibling names, no path is returned twice |
| `CopyFile.CopyFile` | src/utils/copy-file.js:14-40 | the method's outcome and new output are those of the step-by-step specification of link, skip, mkdirp (which can throw), unlink and link again |
| `CopyFile.FirstAttemptOnly` | src/utils/copy-file.js:17-18 | when the first link succeeds, the output gains the destination and nothing else changes |
| `CopyFile.MissingSourceSkipped` | src/utils/copy-file.js:19-24 | a failed first attempt with a missing source returns normally and leaves the output unchanged |
| `CopyFile.RetryIsPrepared` | src/utils/copy-file.js:26-36 | when `mkdirp` does not throw, before the retry the parent exists, and is a directory where it had to be made; the destination is gone unless it is a directory |
| `CopyFile.DestinationRefersToSource` | src/utils/copy-file.js:38 | after a normal return with an existing source, the destination links to the source |
| `CopyFile.OnlyDestinationAndParents` | src/utils/copy-file.js:15-38 | every other output path keeps its node; anything new besides the destination is a directory on the way to it |
| `CopyFile.CopyFileFails` | src/utils/copy-file.js:27-38 | `copyFile` throws exactly when the source exists and the platform refuses the destination, a directory sits at the destination, a non-directory sits at its parent, or the parent is missing and `mkdirp` meets a non-directory on the way to it |
| `CopyFile.BlockedByLink` | src/utils/copy-file.js:27-28 | copying to `x/y/z` where `x` is a link and `x/y` is missing throws in `mkdirp`, and the output is unchanged |
| `TreeDiff.PatchEmptyIff` | src/index.js:71-72 | for ordered snapshots, the patch is empty exactly when the two snapshots are equal |
| `TreeDiff.ApplyPatchEffect` | src/index.js:96 | applying the patch leaves entries common to both snapshots alone, writes new or changed entries with their new stat, removes vanished paths, and touches nothing else |
| `TreeDiff.ApplyPatch` | src/index.js:96 | the loop replays the patch's operations in order |
| `Graph.GetFSTreeSound` | src/index.js:191-199 | every snapshot entry is one of the given paths, with the stat the input holds for it |
| `Graph.GetFSTreeComplete` | src/index.js:193-200 | only the paths whose stat is null are omitted: every given path with a stat has its entry (the converse is `Graph.GetFSTreeSound`) |
| `Graph.GetFSTreeKeepsOrder` | src/index.js:191-200 | the snapshot's paths are a subsequence of the given paths |
| `Graph.GetFSTreeOrdered` | src/index.js:202 | a strictly sorted path list gives a snapshot in the order `FSTree.fromEntries` requires |
| `Graph.NextNonDepGraphSpec` | src/index.js:55-57 | the complement is strictly sorted, disjoint from the graph, made only of input files, and together with the graph covers every input file |
| `Graph.ResolveEntry` | src/index.js:105-115 | the entry is tried first, then `modules/<entry>`; none is found exactly when neither exists |
| `Graph.DepGraphSpec` | src/index.js:150-157 | the graph is strictly sorted, holds the resolved entry, and holds exactly the walked modules besides |
| `Graph.CopyAllEffect` | src/index.js:173-181 | copying distinct, non-nested paths into an output where nothing is in the way succeeds, links each existing source, skips missing ones, and adds only directories besides |
| `Mode.ToUint32` | src/index.js:36 | the 32-bit conversion applied by `^` is below 2^32, is the identity on small non-negative integers, and maps booleans, `undefined` and `null` to 1 or 0 |
| `Mode.ModeChecksAgreeOnFlags` | src/index.js:36 | on booleans, `undefined` and `null`, the XOR check accepts exactly when one option is truthy |
| `Mode.BothTruthyAccepted` | src/index.js:36 | `include: 2, exclude: 1` passes the XOR check although both are truthy |
| `Mode.WrappedTruthyRejected` | src/index.js:36 | `include: 4294967296` alone fails the XOR check although it is truthy |
| `Funnel.Configure` | src/index.js:36-44 | construction succeeds exactly when one option is truthy; it keeps `include` as a boolean and the entry |
| `Funnel.FailedRebuildCacheAsWritten` | src/index.js:157-158 | models the assignments made before the copy, which are all that stand when `copy` throws; after a failed first build the four fields are no longer all set or all unset |
| `Funnel.DependencyFunnel.constructor` | src/index.js:42-52 | a new funnel has its mode and entry and all four fields unset |
| `Funnel.DependencyFunnel.Copy` | src/index.js:173-181 | the loop's outcome and output are those of `copyFile` applied to each path in turn, stopping at the first failure |
| `Funnel.DependencyFunnel.Build` | src/index.js:59-171 | the branch taken, the outcome, the four fields and the output are those of the build specification, and the field invariant is kept |
| `Funnel.DependencyFunnel.RefreshComplement` | src/index.js:75-99 | with the graph unchanged, the complement fields are refreshed, and only exclude mode with a non-empty patch writes the output |
| `Funnel.DependencyFunnel.ResolveAndRebuild` | src/index.js:103-170 | entry resolution, then the no-entry branch or a full rebuild, as specified |
| `Funnel.BuildPreservesValid` | src/index.js:157-168 | every build leaves the fields all set or all unset, with both lists strictly sorted and disjoint and both snapshots ordered |
| `Funnel.InvalidationForcesRebuild` | src/index.js:69-74 | when the held graph's fresh snapshot differs from the held one, the build is a full rebuild or the no-entry branch, never a cache hit or a patch |
| `Funnel.RebuildIsCacheHit` | src/index.js:69-92 | a second build over the same input, after a cache branch or a successful full rebuild, is a cache hit that writes nothing and keeps the fields |
| `Funnel.UnchangedGraphNoWrite` | src/index.js:74-92 | with the graph's snapshot unchanged, an unchanged complement or include mode means no write to the output and a normal return; only the complement fields change |
| `Funnel.ComplementPatch` | src/index.js:93-99 | in exclude mode with only the complement changed, just the complement's patch is applied: untouched files keep their node, nothing is cleared, the graph fields stay |
| `Funnel.CacheBranchesIgnoreWalker` | src/index.js:69-100 | the cache branches do not depend on the walker's answer or on where copying would fail |
| `Funnel.FullRebuildState` | src/index.js:150-168 | a full rebuild copies the graph or the complement into an emptied output, and on success commits a sorted graph holding the entry and a sorted, disjoint, covering complement |
| `Funnel.FullRebuildOutput` | src/index.js:160-165 | with nothing in the way, a full rebuild succeeds and the output holds a link for each copied path with an existing source and only directories besides |
| `Funnel.NoEntryBranch` | src/index.js:117-131 | with no entry found the fields stay; include mode leaves the output, and exclude mode copies the top-level entries onto it |
| `Funnel.CopyAllFailsOnDirectory` | src/index.js:177-180 | the copy loop fails when it reaches an existing source where the output already holds a directory |
| `Funnel.NoEntryExcludeThrowsOnDirectory` | src/index.js:121-127 | in exclude mode the no-entry branch throws when the output holds a directory at the name of a top-level input entry |
| `Funnel.CacheFieldsRule` | src/index.js:79-80 | the graph fields change only in a successful full rebuild; the cache branches change only the complement fields; the no-entry branch and a failed build change none |
| `Funnel.HalfCommittedCacheAsWritten` | src/index.js:157-168 | a first build whose only module cannot be copied leaves the source's fields half set, and the modelled build leaves them unset |

## Left out

- Walker and listing failures: `mr-dep-walk` throwing at `src/index.js:138` (a module it cannot parse, say) is not modelled, because `walked` is always a list. That throw comes before any field or the output is touched. Nor is `readdirSync` or `statSync` in `filterDirectory` (`src/utils/filter-directory.js:15,22`) throwing for a reason such as EACCES or a file removed between the listing and the stat. During a full rebuild that throw comes from `nextNonDepGraph` at `src/index.js:158`, after `_depGraph` was assigned at `src/index.js:157`, and leaves the fields half set as in the second finding. The modelled build has no such failure.
- FileSystem.Output.Rimraf: `rimraf.sync` at `src/index.js:160` is taken to succeed. The real one can throw (EPERM, EBUSY), and then the lists assigned at `src/index.js:157-158` are left beside stale snapshots, as in the second finding. The modelled build has no such failure.
- Instrumentation: heimdall nodes, the stats counters and the logger. They do not affect the output or the fields.
- `mr-dep-walk`'s parser and resolver: whatever the walker returns for the entry is the parameter `walked`. The `external` option and the walker's `cwd` only reach the walker, so they are not modelled.
- Funnel.DependencyFunnel.Build: requires that the walker's list has no repeated path. A repeated path that exists would make `FSTree.fromEntries` reject the snapshot; a repeated path that does not exist is filtered out by `_getFSTree` and is harmless, but the model still excludes it. It also requires a well-formed input tree, as a real directory listing is.
- `fs-tree-diff`'s own operation order (removals before additions, directories) and its `mkdir`/`rmdir` operations are not modelled. `applyPatch` is modelled as always succeeding. Content is not modelled: a created or changed file is recorded with its new stat.
- `exists-stat`'s swallowing of errors other than "not found", such as permission errors: a stat is either found or absent.
- The difference between linking and copying in `symlink-or-copy`: both are `Linked(source)`. Failures other than the `broken` destinations and the cases in `Output.SymlinkOrCopy` are not modelled.
- A `Linked` node is never a directory in the model: paths below a link to an input directory do not resolve into the input. The source's `existsSync`, `unlinkSync`, `symlinkSync` and `mkdirp` follow such a link, so `mkdirp` under it would write into the input where the model reports ENOTDIR.
- FileSystem.MakeDirs: when `mkdirp` throws, the model leaves the output unchanged. The real `mkdirp` may already have made directories above the blocking entry. In a state a real file system can reach, those all exist already.
- Platform path separators: `filter-directory.js` uses the platform `path` while `index.js` uses `path-posix`, so on Windows the separators differ. The model always uses `/`.
- A broken symlink in the input makes `statSync` throw inside `filterDirectory`. The input tree of the model has no links.
- `path.join` normalisation (`.`, `..`, repeated slashes): paths and the entry are taken as already normalised, relative and slash-separated.
- String order: Dafny characters are Unicode scalar values, while JavaScript's `sort()` compares UTF-16 code units. The two orders differ only between characters above U+FFFF and characters from U+E000 to U+FFFF.
- Option values for `include`/`exclude` other than `undefined`, `null`, booleans and integer numbers, such as strings, objects, fractions and NaN.
- The Broccoli `Plugin` wiring (`inputPaths[0]`, `outputPath`, `persistentOutput`), `Brocfile.js`, and the tests as code.
- Graph.CopyAllEffect: it proves success only when the paths are not nested in one another and when the platform accepts each of them. Graph.CopyAllEffect does not derive those conditions from the input tree.

## Findings

| source | as written | input that shows it | evidently intended | confidence | as-written member | corrected member |
|---|---|---|---|---|---|---|
| src/index.js:36 | `!(options.include ^ options.exclude)` throws only when the two options have the same 32-bit integer value | `include: 2, exclude: 1` is accepted; `include: 4294967296` without `exclude` is rejected (see also `Mode.WrappedTruthyRejected`) | construction succeeds exactly when one of the two options is truthy | not executed | `Mode.BothTruthyAccepted` | `Funnel.Configure` |
| src/index.js:157-168 | `_depGraph` is assigned at :157 and `_nonDepGraph` at :158, before `rimraf` and `copy`, and the two snapshots only at :167-168; when `nextNonDepGraph`, `rimraf` or `copy` throws in between, the lists are new but the snapshots are old; after a failed first build the snapshots are undefined, so the next build calls `calculatePatch` on `undefined` | a first build in include mode whose only module `a.js` the platform cannot link or copy | the four fields change together, and only when a full rebuild succeeds | not executed | `Funnel.HalfCommittedCacheAsWritten` | `Funnel.CacheFieldsRule` |
