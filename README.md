# FileSweeper retention sweep — a Dafny model

FileSweeper is a scheduled file-retention sweeper. It reads a list of
locations, each with a source directory, an age threshold in whole days
(`Days`), an action string (`"delete"` or `"move"`) and an optional target
directory. It walks each source tree in configuration order. For every file
whose whole-day age is strictly greater than `Days`, it attempts a removal
(`"delete"`) or a rename to the same relative path under the target directory
(`"move"`). Before the rename it attempts to create that path's parent
directory, and it attempts the rename whether or not that succeeded. Any
other action string does nothing. A walk error ends the whole process at
once.

This project models that decision procedure and proves what it does.

- `retention.dfy` (module `Retention`) holds the age rule `shouldClean`. The
  elapsed time since the last modification is an integer count of
  nanoseconds. Go converts the float quotient to `int`, which truncates toward
  zero; here that is an explicit truncating division by one day.
- `paths.dfy` (module `Paths`) holds `filepath.Join` as separator
  concatenation, its inverse `StripRoot`, and `filepath.Dir`.
- `executor.dfy` (module `Executor`) holds `deleteFiles` and `moveFiles`.
  Each call into the filesystem (`os.Remove`, `os.MkdirAll`, `os.Rename`) is
  recorded as a `Call`. Whether the call succeeded is an input, and it only
  decides which `Event` is logged.
- `sweeper.dfy` (module `Sweeper`) holds the `fs.WalkDir` callback and the
  location loop of `main`. `Dispatch` and `PlanWalk` are the specification
  functions. `ProcessFiles` and `SweepAll` are loop methods proved equal to
  them. `Reference` is an independent description: the qualifying entries
  before the first walk error, each turned into the configured action.
  `PlanWalkCharacterized` proves the two agree.
- `scenarios.dfy` (module `Scenarios`) holds concrete sweeps over small trees.

Each location is paired with the walk of its source tree (`Job`). That walk
is a sequence of `WalkStep`s in walk order. A step is either an entry or a
walk error. An entry has a relative path, a directory flag, and an elapsed
time that is `None` when `Info()` failed. The effects are an `Outcome`: the
actions emitted, in order, and whether the process exited early. The
location loop is `Chain` over the per-location walk outcomes
(`WalkOutcomes(jobs)`). So the sweep lemmas are stated over that sequence of
outcomes.

A `"move"` location with no target directory is not rejected:
`filepath.Join("", path)` is `path`, so the file is renamed to its relative
path, resolved against the process's working directory
(`EmptyTargetMovesToRelativePath`).

## Model

| member | source | states |
|---|---|---|
| `Retention.ShouldClean` | main.go:86-91 | A file whose metadata cannot be read never qualifies. |
| `Retention.AgeDaysBounds` | main.go:93-96 | The age is the number of whole days elapsed, truncated toward zero. For a past modification it is the largest n with n days ≤ elapsed. For a future one it is ≤ 0 and within one day of the elapsed time. |
| `Retention.QualifiesIff` | main.go:95-96 | Both directions, with no division: for `Days` ≥ 0 a file qualifies iff at least `Days`+1 full days have elapsed. For `Days` < 0 it qualifies iff its modification time is less than −`Days` days in the future. |
| `Retention.ThresholdIsStrict` | main.go:96 | A file aged exactly `Days` days, or `Days` days plus anything less than a day, does not qualify. A file aged `Days`+1 days does. |
| `Retention.OlderStillQualifies` | main.go:93-96 | Qualification is monotone in age. |
| `Retention.FutureFileAgeZero` | main.go:93-96 | A modification time less than a day in the future gives age 0, so such a file qualifies only under a negative threshold. |
| `Paths.StripJoin` | main.go:74 | Stripping the root from `Join(root, rel)` gives back `rel`. |
| `Paths.JoinStrip` | main.go:78 | Joining a root with what stripping it left gives back the path. |
| `Paths.JoinInjective` | main.go:74 | Distinct relative paths give distinct full paths under one root. |
| `Paths.LastSeparator` | main.go:110 | Returns the index of the last separator, with no separator after it, or None when the path has no separator. |
| `Paths.DirOfJoin` | main.go:110 | The directory created for `Join(root, rel)` is `root` joined with the directory part of `rel`, or `root` itself when `rel` has no separator. So the relative tree is mirrored under the target. |
| `Executor.DeleteFiles` | main.go:99-106 | Makes exactly one removal call. Logs exactly one event: "deleted" iff the removal succeeded, "error deleting" otherwise. |
| `Executor.MoveFiles` | main.go:108-121 | Always makes a mkdir of the target's parent and then a rename, whatever the mkdir answered. The log is exactly a directory-creation error when the mkdir failed, followed by the rename's event. Logs a directory-creation error iff the mkdir failed. Logs "moved" iff the rename succeeded, and "error moving" otherwise. The last logged event is the rename's. |
| `Executor.RenameFollowsMkdir` | main.go:108-115 | In the calls of any sequence of actions, each rename comes immediately after the mkdir of its destination's parent. |
| `Executor.CallsOfAllLength` | main.go:99-121 | The calls of a sequence of actions number one per delete and two per move. |
| `Sweeper.DispatchSpec` | main.go:73-80 | For one entry the callback emits at most one action. A directory, an entry with unreadable metadata, or an action string other than "delete" and "move" gives none. A qualifying entry gives exactly one action. It is a delete iff the action is "delete". Its source strips to the entry's path under `SourceDir`, and a move's destination strips to the same path under `TargetDir`. |
| `Sweeper.HandleEntry` | main.go:73-80 | The callback's work for one visited entry emits exactly `Dispatch`'s actions, and its filesystem calls are those actions' calls, whatever the filesystem answers. |
| `Sweeper.ProcessFiles` | main.go:63-84 | The callback loop over the walk emits exactly `PlanWalk`'s actions and aborts exactly when `PlanWalk` does. The filesystem calls it makes are the actions' calls in order, whatever the filesystem answers. |
| `Sweeper.PlanWalkAppend` | main.go:67-83 | A walk is its first part followed by its second, unless the first part already aborted. |
| `Sweeper.AbortIsFinal` | main.go:68-71 | Once a walk error has been reached, no later step changes anything. |
| `Sweeper.PlanWalkCharacterized` | main.go:67-83 | The step-by-step walk equals the reference description. Its actions are the configured actions of the qualifying entries before the first error, in walk order. It aborts iff an error occurs. |
| `Sweeper.SelectedAppend` | main.go:67-83 | Selection keeps walk order: selecting from a walk split in two is selecting from each part in turn. |
| `Sweeper.SelectedIff` | main.go:73 | Both directions: an entry is selected iff the walk visits it and it qualifies. A directory or an unreadable entry never is. |
| `Sweeper.ActionsForAt` | main.go:74-80 | With "delete" or "move" there is one action per selected entry, the k-th for the k-th entry. With any other string there are none. |
| `Sweeper.WalkAbortsIffError` | main.go:68-71 | A walk ends the process iff some step is a walk error. |
| `Sweeper.DeletePlan` | main.go:74-76 | With "delete", the actions are exactly one `Delete(SourceDir ⊕ p)` per qualifying entry before the first error, in walk order. |
| `Sweeper.MovePlan` | main.go:74-79 | With "move", the actions are exactly one `Move(SourceDir ⊕ p, TargetDir ⊕ p)` per qualifying entry before the first error, in walk order. Source and destination strip back to the same relative path `p`. |
| `Sweeper.OtherActionIsNoOp` | main.go:75-80 | Any other action string emits nothing, whatever the walk. |
| `Sweeper.DeletedIff` | main.go:73-76 | With "delete", the file at `p` is deleted iff the walk reaches, before any error, a qualifying entry at `p`. Both directions. |
| `Sweeper.MovedIff` | main.go:73-79 | With "move", the file at `p` is moved to `p` under `TargetDir` iff the walk reaches, before any error, a qualifying entry at `p`. Both directions. |
| `Sweeper.YoungTreeIsNoOp` | main.go:73 | A walk in which no entry qualifies emits nothing. This covers an empty tree, or one whose files are all younger than the threshold. |
| `Sweeper.NothingSelected` | main.go:73 | No entry is selected from a walk in which none qualifies. |
| `Sweeper.SkippedEntryNoEffect` | main.go:73-82 | Removing a non-qualifying entry from the walk changes nothing. Such entries are directories, unreadable entries and young files. The walk simply continues with the next entry. |
| `Sweeper.EmptyTargetMovesToRelativePath` | main.go:77-79 | With "move" and an empty `TargetDir`, every destination is the file's relative path. |
| `Sweeper.SweepAll` | main.go:47-49 | The loop over locations emits exactly the chained outcome of the locations' walks, in configuration order, and stops at the first abort. Its calls are its actions' calls, whatever the filesystem answers. |
| `Sweeper.ChainAppend` | main.go:47-49 | The locations of a first part, then those of a second, unless the first part aborted. |
| `Sweeper.SweepAbortIsFinal` | main.go:47-49 | After an abort, later locations contribute nothing. |
| `Sweeper.SweepWithoutAbort` | main.go:47-49 | Without walk errors, the sweep emits every location's actions, concatenated in configuration order. |
| `Sweeper.SweepStopsAtAbort` | main.go:47-49 | If location i is the first whose walk errors, the result is the actions of the earlier locations, then i's actions up to the error, and it is aborted. The emitted actions stay, and later locations add nothing. |
| `Sweeper.SweepAbortsIff` | main.go:47-49 | The sweep aborts iff some location's walk does. |
| `Scenarios.DeleteOldKeepNew` | main.go:73-76 | Threshold 30 days with "delete": `old.log` (40 days) is deleted and `new.log` (5 days) is not. |
| `Scenarios.MoveMirrorsTree` | main.go:73-79 | Threshold 7 days, "move" to `/archive`: `reports/q1.csv` (10 days) moves to `/archive/reports/q1.csv`, and the directories produce nothing. |
| `Scenarios.MoveCreatesMirroredParent` | main.go:108-115 | That move first creates `/archive/reports`, then renames. |
| `Scenarios.BoundaryFileStays` | main.go:96 | Files aged exactly 7 days, or 8 days less a nanosecond, stay under threshold 7. |
| `Scenarios.MissingSourceStopsSweep` | main.go:47-49 | A missing source directory, whose root the walk cannot stat, aborts the sweep before any later location. |

## Left out

- Configuration loading (`loadConfig`, JSON decoding) and flag parsing. A `Location` is taken as already built; a missing field has its zero value (an absent action is `""`).
- Opening the log file and all `slog` output around the walk ("Processing location", walk error, metadata error). These are I/O. Only the executor's per-file outcome events are modelled.
- ProcessFiles: discards the events that `DeleteFiles` and `MoveFiles` log, so the walk-level log is not stated.
- The directory traversal itself (`os.DirFS`, `fs.WalkDir`). This is library code. Its output is the given sequence of steps, and the lexical order and subtree coverage it guarantees are not modelled.
- The walk each location sees is an input. The model does not track how deletes and moves change the tree that is still being walked, because the filesystem is not modelled. This holds across locations (an earlier location changes what a later one walks) and within one: `fs.WalkDir` reads a directory when it enters it, so a move whose `TargetDir` lies inside `SourceDir` can add entries that the same walk visits later and moves again.
- `os.Remove`, `os.MkdirAll` and `os.Rename` are recorded as calls with a success flag supplied from outside. Their effect on a filesystem (the file no longer exists, the destination exists) is not modelled.
- `filepath.Join` and `filepath.Dir` do lexical cleaning in Go (duplicate separators, `.`, `..`, trailing separators). The model does not. `Join` is concatenation with `/`, and an empty root contributes nothing.
- The floating-point age computation (`Hours() / 24` then `int(...)`). It is modelled as exact truncating integer division, so rounding just below a day boundary is not captured. Go's saturation of durations beyond the 64-bit range and the 64-bit width of `Days` are not modelled either: integers are unbounded.
- `os.Exit(1)` on a walk error is the `aborted` flag. The log file's deferred close, which does not run on that path, is not modelled.
