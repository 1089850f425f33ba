# File Transfer Shuffler — a verified model of its core

File Transfer Shuffler collects the files under a source directory, shuffles
them, and copies each one into a target directory. Each copy is renamed
`"<position> - <stem><suffix>"`, so the new names record the shuffled order.
The script runs in two stages, and both report progress to a `pipe` callback:

* **gather** (`gather_files` with its nested `parse_dir`) walks the source
  directory depth first. It can descend into subdirectories or not, and it
  can keep only files whose suffix is in an extension list. It sends a
  `gatherdirectory` event for every directory it visits and a `gather` event
  for every file it keeps. Last comes an `end` event that carries the list.
* **move** (`move_files`) shuffles that list in place. For position `i` it
  builds the new path, sends a `move` event with a `remaining` count-down,
  copies the file with `shutil.copy2` and records the `(file, newpath)`
  pair. At the end it sends `end(output)`. Given an empty list it sends only
  `end(None)`. When a copy fails it sends `error` and re-raises.

The command-line front end also normalises the `--source-ext` arguments: it
adds a leading `.` to every extension that lacks one.

The model has one Dafny module per component:

* `wrappers.dfy`: `Option`.
* `decimal.dfy`: how `f"{i}"` renders a position, with its inverse.
* `effects.dfy`: paths, the five event kinds, and class `World`. The
  event constructors `GatherDirectory`, `Found`, `Moving`, `End` and `Error`
  stand for the `type` values `gatherdirectory`, `gather`, `move`, `end` and
  `error`. `World`
  stands for the pipe and the file system together. It keeps one ghost log
  of the events sent and the copies made, in order. A copy fails exactly when
  the fixed predicate `copyFails(src, dst)` holds.
* `gather.dfy`: the directory tree as a value (`Dir`, `Entry`). `Walk` and
  `WalkTrace` are specification functions. Class `Gatherer` is the closure
  environment of `parse_dir`: the filter, the recurse flag, the pipe and the
  shared `files` list. Its method `VisitEntry` is one pass of the loop in
  `parse_dir`. The module also holds the lemmas about filtering, about
  duplicates and about the trace.
* `move.dfy`: the naming, the in-place Fisher–Yates `Shuffle`, and
  `MoveFiles` over an `array`. `MoveFiles` shuffles the array, then
  `CopyInOrder` runs the copy loop over the shuffled contents. The
  specification is `MoveRun`. `MoveRun`
  gives the full log and the outcome for a given shuffled list. The lemmas
  cover its three endings.
* `cli.dfy`: the extension-normalisation loop.

The shuffle picks each swap index with Dafny's `:|`. So `MoveFiles` is proved
for every permutation it can produce. Once the permutation is fixed, the
whole run is determined by `MoveRun`.

## Model

| member | source | states |
|---|---|---|
| `Gather.Matches` | filetransfershuffler.py:30 | an empty extension list admits every suffix; a non-empty one admits exactly the suffixes it lists |
| `Gather.Walk` | filetransfershuffler.py:23-32 | every file appended by the walk passes the extension filter; without recursion every one lies directly in the walked directory |
| `Gather.WalkTrace` | filetransfershuffler.py:23-32 | a directory's events are never empty, and the first is that directory's own `gatherdirectory` event |
| `Gather.Gathered` | filetransfershuffler.py:21-40 | every returned file passes the extension filter; without recursion every one lies directly in the source directory |
| `Gather.GatherTrace` | filetransfershuffler.py:21-40 | the run sends at least two events: first the source's `gatherdirectory`, last an `end` |
| `Gather.Gatherer.constructor` | filetransfershuffler.py:22 | the walk starts with an empty `files` list and the given filter, recurse flag and pipe |
| `Gather.Gatherer.ParseDir` | filetransfershuffler.py:23-32 | visiting a directory appends exactly `Walk` of it to `files`, and appends exactly `WalkTrace` of it to the pipe log: its `gatherdirectory` event, then in entry order a `gather` event per kept file and the whole trace of each subdirectory when recursing |
| `Gather.Gatherer.VisitEntry` | filetransfershuffler.py:26-32 | one pass of the loop appends exactly `EntryFiles` of the entry to `files` and sends exactly its `EntryTrace`: nothing for an entry that is neither file nor directory, nothing for a subdirectory without recursion |
| `Gather.GatherFiles` | filetransfershuffler.py:21-40 | returns `Gathered(source)` and sends `GatherTrace(source)`: the walk's events followed by one `end` carrying the returned list |
| `Gather.WalkMembers` | filetransfershuffler.py:25-32 | a file is among those appended for the first `n` entries iff its suffix passes the filter and one of those entries holds it (a file entry, or, when recursing, a subdirectory containing it) |
| `Gather.EntryMembers` | filetransfershuffler.py:26-32 | one entry contributes a file iff the suffix passes the filter and the entry is that file or, when recursing, a subdirectory containing it; other entries contribute nothing |
| `Gather.GatheredExactly` | filetransfershuffler.py:26-30 | filter soundness and completeness: gathered iff the file is reachable and its suffix is in the list; with an empty list, iff reachable (that no file is listed twice is `Gather.GatheredNoDuplicates`) |
| `Gather.GatheredNoDuplicates` | filetransfershuffler.py:23-32 | when no directory of the tree lists two entries under one name, no file appears twice in the returned list |
| `Gather.NonRecursiveGathersDirectChildren` | filetransfershuffler.py:26-29 | with `recurse` false, a file is gathered iff it lies directly in the source directory, is a file entry there, and passes the filter; nothing from a subdirectory appears |
| `Gather.WalkReportsFiles` | filetransfershuffler.py:31-32 | the files of the `gather` events of a walk are exactly the files it appends, in the same order |
| `Gather.EntryReportsFiles` | filetransfershuffler.py:31-32 | the same for one entry |
| `Gather.WalkSendsWalkEvents` | filetransfershuffler.py:24-32 | a walk sends only `gatherdirectory` and `gather` events |
| `Gather.EntrySendsWalkEvents` | filetransfershuffler.py:26-32 | the same for one entry |
| `Gather.WalkAnnounces` | filetransfershuffler.py:24-32 | a directory's trace opens with its own `gatherdirectory` event; every `gather` event names its file's directory and comes after that directory's `gatherdirectory` event |
| `Gather.EntryAnnounces` | filetransfershuffler.py:26-32 | each `gather` event from one entry is for the current directory or comes after its own directory's `gatherdirectory` event |
| `Gather.NonRecursiveVisitsSourceOnly` | filetransfershuffler.py:24-29 | with `recurse` false, the walk sends exactly one `gatherdirectory` event, for the directory itself |
| `Gather.WalkVisits` | filetransfershuffler.py:24-28 | a walk sends a `gatherdirectory` event for a path iff it is the walked directory itself or, when recursing, a directory reached through one of the first `n` entries |
| `Gather.EntryVisits` | filetransfershuffler.py:26-28 | one entry sends a `gatherdirectory` event for a path iff the entry is a subdirectory, recursion is on, and the path is that subdirectory or lies below it |
| `Gather.WalkVisitsOnce` | filetransfershuffler.py:24-28 | when names are unique within each directory, no path gets two `gatherdirectory` events in one walk |
| `Gather.EntryVisitsOnce` | filetransfershuffler.py:26-28 | the same for one entry |
| `Gather.GatherVisitsReachable` | filetransfershuffler.py:24-37 | the run announces exactly the source directory and, when recursing, every directory below it (`DirReach`), and no other path |
| `Gather.GatherVisitsOnce` | filetransfershuffler.py:24-37 | when names are unique within each directory, every directory is announced at most once in the whole run |
| `Gather.GatherTraceAnnounces` | filetransfershuffler.py:24-39 | the full gather trace starts with the source's `gatherdirectory` event, and each file's `gather` event follows its directory's event |
| `Gather.GatherTraceReportsResult` | filetransfershuffler.py:31-39 | one `gather` event per returned file, in list order; the last event is the only `end`, and it carries the returned list |
| `Gather.NonRecursiveTrace` | filetransfershuffler.py:26-29 | with `recurse` false, the only `gatherdirectory` event of the run is the source's |
| `Decimal.DecimalString` | filetransfershuffler.py:57 | the rendering of a position is non-empty, all digits, and has no leading zero |
| `Decimal.ParseDecimalOfDecimalString` | filetransfershuffler.py:57 | reading the rendering back gives the position |
| `Decimal.DecimalStringInjective` | filetransfershuffler.py:57 | different positions render differently |
| `Decimal.PrefixedByDecimalInjective` | filetransfershuffler.py:57 | a rendered position followed by text that starts with a non-digit determines both the position and the text |
| `Move.NewPath` | filetransfershuffler.py:57-58 | the new path lies directly in `target`, keeps the original suffix, and has a stem strictly longer than the original stem plus the `" - "` separator |
| `Move.NewPathShape` | filetransfershuffler.py:57-58 | the copy lies directly in `target`, keeps the suffix, and its name is the position's decimal form, then `" - "`, then the original name |
| `Move.NewNamesDistinct` | filetransfershuffler.py:57-58 | copies for different positions have different names, whatever the original names |
| `Move.FirstFailure` | filetransfershuffler.py:56-60 | locates the first copy that fails: all earlier copies succeed, and the one found fails unless it is past the end |
| `Move.StepsLayout` | filetransfershuffler.py:56-61 | after `k` iterations the log has `2k` entries; entry `2j` is the `move` event of file `j`, with `remaining = total - j - 1`, and entry `2j+1` is the copy of file `j` to its new path |
| `Move.PairsAt` | filetransfershuffler.py:56-61 | after `k` iterations `output` has `k` pairs, and pair `i` is file `i` with its new path |
| `Move.StepsSendNoEnd` | filetransfershuffler.py:56-61 | the loop itself sends no `end` event |
| `Move.StepsCopies` | filetransfershuffler.py:56-61 | the copies the loop makes are exactly the `output` pairs it builds, in order |
| `Move.MoveRun` | filetransfershuffler.py:42-67 | the run raises iff some copy fails; the log is never empty; a raising run's last action is the `error` event carrying the raised failure, and a returning run's last action is the `end` event carrying the returned value (no result for an empty list) |
| `Move.MoveEmpty` | filetransfershuffler.py:46 | an empty list: one `end` event with no result, no copies, `None` returned |
| `Move.MoveSucceeds` | filetransfershuffler.py:54-64 | when no copy fails, `output` has one pair per file and pair `i` is `(files[i]`, its new path`)`; new names are pairwise distinct; each file is copied once, in order, right after its `move` event; the count-down runs from `total - 1` to 0; and a single final `end(output)` follows |
| `Move.MoveFails` | filetransfershuffler.py:56-67 | when copy `k` is the first to fail: the earlier iterations run normally and their copies stay; the `move` event of `k` is sent, then `error`; the failure is raised; no `end` is sent |
| `Move.EveryFileCopiedOnce` | filetransfershuffler.py:54-61 | after any permutation, a successful run copies exactly the multiset of the gathered files |
| `Move.Shuffle` | filetransfershuffler.py:54 | the list is permuted in place: same multiset of elements |
| `Move.MoveOne` | filetransfershuffler.py:57-60 | one iteration builds the new path, sends its `move` event, then attempts the copy; the copy is logged only when it succeeds |
| `Move.CopyInOrder` | filetransfershuffler.py:55-64 | the copy loop with its closing `end` event, over the shuffled list's contents, does exactly `MoveRun` of that list: the outcome and the log |
| `Move.MoveFiles` | filetransfershuffler.py:42-67 | the list is permuted in place; the outcome and the log that follow are those of `MoveRun` on the permuted list |
| `Effects.World.constructor` | filetransfershuffler.py:21 | the pipe and file system start with nothing sent and nothing copied, and with the given copy-failure predicate |
| `Effects.World.Emit` | filetransfershuffler.py:21 | sending an event appends it to the log |
| `Effects.World.Copy2` | filetransfershuffler.py:60 | a copy either succeeds and is logged, or fails with that source and destination and logs nothing |
| `Cli.Dotted` | filetransfershuffler.py:293-294 | a normalised extension starts with `.`; one that already did is unchanged; otherwise it is the raw text behind one added `.` |
| `Cli.Normalised` | filetransfershuffler.py:289-295 | the normalised list is empty when the option is absent and otherwise as long as the raw list; every element starts with `.`, and an element that already did is kept |
| `Cli.NormaliseExtensions` | filetransfershuffler.py:289-295 | an absent argument gives the empty list; otherwise the result has the raw list's length and order, and element `i` is `Dotted(raw[i])` |
| `Cli.NormalisedProperties` | filetransfershuffler.py:289-295 | same length, every element starts with `.`, already-dotted elements are kept, and normalising twice equals normalising once |

## Left out

- The windowed front end (`GUI`, `ProgressWindow`) and its background threads are left out. They are user interface and concurrency. The `movefiles` handler passes a `subtarget=` keyword that `move_files` does not accept, so that route fails before it reaches the core.
- The progress percentage (`int((total-remaining) / total * 100)`) is left out because it uses floating point. The `move` events in the model carry the exact `remaining` and `total` it is computed from.
- File-system calls are abstracted away. The tree that `iterdir`, `is_file` and `is_dir` would report is an input value, and their ordering comes from the operating system. `resolve()` is modelled by taking the resolved source and target paths as inputs. The new path of each copy is also resolved (filetransfershuffler.py:58). `NewPath` takes that resolved path to be `target / newname` itself. That holds unless a symbolic link already sits at that name in the target, and such links are not modelled.
- `Effects.World.Copy2`: `shutil.copy2` is a step that fails exactly when `copyFails(src, dst)` holds. The model does not cover its metadata copying, a partial write before a failure, or overwriting an existing file.
- A walk that fails with an I/O error, such as a directory that cannot be listed, is left out. The tree is given as a value, so listing always succeeds.
- A pipe callback that raises inside `gather_files` is left out: `World.Emit` always succeeds. `gather_files` has no `try`, so such an exception would propagate out of the walk. The events before it would stay sent, and no `end` would follow.
- Python's recursion limit is not modelled: the model assumes the walk never reaches it. `parse_dir` calls itself for each subdirectory (filetransfershuffler.py:28). A tree nested deeper than the interpreter's limit, about 1000 levels by default, would raise `RecursionError` partway through the walk. Some `gatherdirectory` and `gather` events would already have been sent, and no `end` would follow.
- Unique entry names are not built into the tree type. A real file system lists each name once per directory, but a `Dir` value can repeat a name. So the lemmas that rule out repeated files and repeated directory events take this as their precondition `UniqueNames`.
- pathlib's `stem`/`suffix` parsing of a name, including dotfiles and multi-dot names, is library behaviour. A file's name is given as a stem and a suffix.
- `Move.Shuffle`: shown only to produce some permutation. Whether each permutation is equally likely is a probabilistic property and is not modelled.
- In `move_files` the only failure modelled is a failed copy. Other exceptions the `try` would also catch are left out: an exception from the pipe itself, or from `with_stem` or `resolve`. Such an exception would also produce an `error` event and be re-raised. The `error` event carries a `CopyError` value instead of the exception object.
- For an empty list `move_files` returns whatever the pipe returns. Both pipes in the script return `None`, and the model fixes the result to `None`.
- The `cli` front end outside the extension loop is left out: argument parsing, the existence checks on target and source (which print a message and carry on), the `recurse` flag lookup, the calls to the two stages, and the `Done` message. The printing in `default_pipe` is left out too. When `--source` is omitted, `source` is never bound at line 299, so the call fails there. That is a front-end defect outside this model.
