# goxcwd: the process-tree search, in Dafny

goxcwd prints the working directory that a new terminal should open in. It
reads the PID of the focused X11 window from its `_NET_WM_PID` property. It
then takes a snapshot of every process on the machine from procfs and indexes
the snapshot twice: once by parent PID and once by PID. Next it walks down from
the window's process to its deepest descendant whose executable is not
denylisted. Finally it prints that process's working directory.

The model has six modules:

- `Processes` (`processes.dfy`) holds the process records and `Error`. It also
  holds Go's `path.Base`, the denylist `["gopls", "", "."]` and
  `IsProcAllowed`.
- `ProcessIndex` (`index.dfy`) holds `lo.GroupBy` and a filter that serves as
  its reference definition. It also holds the `Index` that groups the snapshot
  both ways, and `BuildIndex`.
- `DeepestChild` (`search.dfy`) holds two things:
  - `Deepest`, a ghost function that says what `findDeepestChild` returns, and
    the lemmas about it. `Deepest` takes the set of allowed PIDs as a
    parameter. The method then instantiates that set with `AllowedPids(ix)`:
    the indexed PIDs whose first record passes `IsProcAllowed`;
  - the method `FindDeepestChild`, which keeps the Go loop and is proved equal
    to `Deepest`.
- `WindowPid` (`windowpid.dfy`) holds the four-byte little-endian decode of
  the property, as the Go code writes it and in a checked version.
- `WorkingDirectory` (`workdir.dfy`) holds `GetCurrentWorkingDirectory`, which
  chains the steps above.
- `Scenario` (`scenario.dfy`) works through the tree 1 -> {2, 3}, 2 -> {4}.

How the source's behaviour is modelled:

- **Snapshot.** The snapshot is a sequence of `Proc` records in the order the
  processes were listed. Each procfs read (stat, exe, cmdline, cwd) is an
  `Option`, where `None` means the read failed.
- **Panics.** The Go code panics through `must` or an out-of-range index. The
  model treats each panic as either an `Err` result or a precondition:
  - An unreadable stat file makes `BuildIndex` fail with `StatUnreadable`.
  - A search root that has no record gives `ProcessNotFound`. In Go this is
    the out-of-range index at line 65.
  - `findDeepestChild` evaluates its trace arguments on every process it
    visits, even when tracing is off. Those arguments are `must` reads of the
    exe, cmdline and cwd. The model therefore requires `SubtreeReadable`, but
    only when the root has a record. A root without one fails at line 65
    before any child is read, whatever its orphaned children look like.
  - A property value shorter than four bytes passes the emptiness check at
    line 132, and lines 137-140 then index past its end. The pipeline uses
    the checked decoder, which returns `PropertyTooShort` instead (see
    "## Findings").
- **Acyclicity.** The Go recursion ends only if the parent links below an
  indexed root are acyclic. The model assumes a ghost `rank` map that decreases from
  parent to child (`RankedBy`). The recursion's termination measure is
  `rank[pid]`.
- **Lookups.** A PID lookup is `procsByPID[pid][0]`: the first record with
  that PID in snapshot order, not the last one.
- **Depth when a node falls back to itself.** A node with children whose
  results are all denied returns itself, and its depth still counts the link
  to its children. In the scenario with process 4 as gopls, the search from 1
  therefore returns `(2, 2)`, not `(2, 1)` and not `(3, 1)`.
- **Unreadable executable.** An unreadable executable panics in the code; it
  is not filtered as if its name were empty.
- **Dead denylist entry.** The denylist entry `""` can never match, because
  `path.Base` never returns the empty string (`BaseShape`).

## Model

| member | source | states |
|---|---|---|
| Processes.TrimTrailingSlashesShape | main.go:91 | Trimming trailing slashes, the first step of `path.Base`, keeps a prefix, removes only slashes and leaves no trailing slash. |
| Processes.AfterLastSlashShape | main.go:91 | The last element of a path is a suffix that contains no slash. If it is shorter than the path, a slash comes right before it. |
| Processes.BaseShape | main.go:91 | `path.Base` never returns "". It returns "/" or a name that contains no slash. |
| Processes.AfterLastSlashOfJoin | main.go:91 | The part of `dir/name` after the last slash is `name`. |
| Processes.BaseOfJoin | main.go:91 | The basename of `dir/name` is `name` when `name` is non-empty and has no slash. |
| Processes.BaseIgnoresTrailingSlash | main.go:91 | A trailing slash does not change the basename of a non-empty path. |
| Processes.DenylistMembers | main.go:24-28 | A non-empty name is on the denylist exactly when it is "gopls" or ".". |
| Processes.AllowedExactly | main.go:90-93 | A process is allowed if and only if its executable's basename is neither "gopls" nor ".". |
| Processes.FilterExamples | main.go:90-93 | The empty path is denied (its basename is "."), `/usr/bin/gopls` is denied and `/bin/bash` is allowed. |
| ProcessIndex.Select | main.go:51-52 | The reference filter returns only elements of the input that have the key, and it returns every such element. |
| ProcessIndex.SelectFirst | main.go:52 | The first selected element is the first element of the input that has the key. |
| ProcessIndex.GroupByIsSelect | main.go:51-52 | A key is in the grouping if and only if some element has it. Its group is the in-order selection of those elements. |
| ProcessIndex.IndexValid | main.go:51-52 | Grouping a snapshot gives non-empty PID groups that hold only that PID. Every child is filed under its own parent and can be looked up by PID. |
| ProcessIndex.BuildIndex | main.go:51-52 | Indexing succeeds if and only if every stat read succeeded. A failure is `StatUnreadable`, and a success satisfies `Valid`. |
| ProcessIndex.ChildrenInSnapshotOrder | main.go:51 | The children of a PID are exactly the records whose parent is that PID, in snapshot order. |
| ProcessIndex.LookupTakesFirst | main.go:52 | A PID is indexed if and only if some record has it. Its lookup `[0]` is the first such record in the snapshot. |
| DeepestChild.BestIsLastDeepestAllowed | main.go:79-86 | The loop keeps its initial value when no allowed result is as deep. Otherwise it keeps an allowed result that is as deep as every allowed result and strictly deeper than every later allowed one. |
| DeepestChild.BestIsCandidate | main.go:79-86 | The loop's result is its initial value or an allowed child result, and its depth never drops below the initial depth. |
| DeepestChild.BestFromDepthZero | main.go:77-86 | Started from depth 0, the loop keeps the node itself only when no child result is allowed. Otherwise it keeps the last of the deepest allowed child results. |
| DeepestChild.BestWhenAllAllowed | main.go:77-86 | When every child result is allowed, the loop keeps one of maximal depth. |
| DeepestChild.NodeChoice | main.go:77-87 | The loop plus the final `+ 1` answer the node itself at depth 1 when nothing is allowed. Otherwise they answer the last deepest allowed result, one level deeper. |
| DeepestChild.DeepestInSubtree | main.go:63-88 | The result is the node itself or an allowed process. It can be reached from the node in at most the reported number of links, and it is indexed. |
| DeepestChild.DeepestReadable | main.go:60-65 | The result of a readable subtree has a readable record. |
| DeepestChild.DeepestDepthBounds | main.go:74-87 | A leaf returns itself at depth 0. A node with children reports a depth between 1 and the height of its subtree. |
| DeepestChild.DeepestWhenAllAllowed | main.go:63-88 | If every process in the subtree is allowed, the depth is the subtree's height and the result is a leaf exactly that many links down. |
| DeepestChild.AllowedInSubtree | main.go:82 | Every process reachable in an all-allowed subtree is allowed. |
| DeepestChild.DeepestPicksLastDeepestAllowedChild | main.go:79-87 | A node takes the result of its last child whose result is allowed and as deep as anything allowed, one level deeper. It returns itself at depth 1 only when no child result is allowed. |
| DeepestChild.FindDeepestChild | main.go:63-88 | An indexed root gives `Ok(Deepest(...))`. Every missing root gives `ProcessNotFound`, with no requirement on the records that still name it as parent. |
| WindowPid.AssemblePidValue | main.go:137-140 | The OR-and-shift expression equals b0 + b1·2^8 + b2·2^16 + b3·2^24, which is below 2^32. |
| WindowPid.AssemblePidBytes | main.go:137-140 | Assembling the four bytes of a 32-bit value gives the value back. |
| WindowPid.BytesOfAssembledPid | main.go:137-140 | Splitting an assembled value gives back the first four bytes. |
| WindowPid.PidFromReplyAsWritten | main.go:132-142 | As written, the decode fails only on an empty property (`PropertyNotSet`). Otherwise it returns the little-endian value. |
| WindowPid.ShortReplyPassesGuard | main.go:132-140 | A one-byte property passes the emptiness guard, yet `PidFromReplyAsWritten` cannot take it, because its precondition records the four-byte indexing. `PidFromReply` returns `PropertyTooShort` for it. |
| WindowPid.PidFromReply | main.go:132-142 | The checked decode succeeds if and only if the property is non-empty and has at least four bytes. Empty gives `PropertyNotSet`, short gives `PropertyTooShort`, and success gives the little-endian value. |
| WindowPid.PidFromReplyAgrees | main.go:132-142 | Wherever the code as written does not panic, the checked decode agrees with it. |
| WindowPid.PidFromReplyRoundTrip | main.go:137-142 | A PID stored as four little-endian bytes is read back unchanged. |
| WorkingDirectory.GetCurrentWorkingDirectory | main.go:38-61 | A decode error and an indexing error are passed through. A root without a record gives `ProcessNotFound`, with no requirement on the rest of the snapshot. Otherwise the result is the cwd of the first record of `Deepest`'s PID. |
| Scenario.TreeByPpid | main.go:51 | Grouping the four-process tree by parent gives 0 -> [1], 1 -> [2, 3], 2 -> [4]. |
| Scenario.TreeByPid | main.go:52 | Grouping the four-process tree by PID gives one record per PID. |
| Scenario.TreeIndexIsBuilt | main.go:51-52 | `BuildIndex` of the tree succeeds, with exactly the hand-written index. |
| Scenario.ScenarioAllAllowed | main.go:63-88 | With nothing denied, the search from 1 returns (4, 2). |
| Scenario.ScenarioGoplsDenied | main.go:63-93 | With process 4 running gopls, node 2 falls back to itself and the search from 1 returns (2, 2). |
| Scenario.OrphanedRootNotFound | main.go:63-65 | A root whose process exited while an unreadable child still names it as parent gives `ProcessNotFound`. |
| Scenario.OrphanedWindowNotFound | main.go:38-65 | The whole lookup on that snapshot, with the window's PID 7 decoded from its bytes, gives `ProcessNotFound`. |

## Left out

- X11: connecting, the input-focus query, the root/none focus check and the atom lookup (lines 95-130) are I/O. The GetProperty reply is an input (`PropertyReply`).
- procfs: `procfs.AllProcs` and the individual reads are I/O. The snapshot is an input, and a failed `AllProcs` is not modelled.
- Live changes to `/proc` between reads. Each record is read once, so the final `Cwd()` at line 60 returns the cwd the trace already read. Its error path is therefore not modelled separately.
- `dbgprint`, the `DEBUG` variable, the indentation string, `main`, `log.Fatalf` and `litter` are output only. The `depth` argument of `findDeepestChild` serves only the indentation, so it is not modelled.
- Cycles in the parent links: the Go code does not terminate on them. The model assumes acyclicity through the `rank` map.
- `fmt.Errorf` wrapping of errors: the model returns the underlying `Error` without its message text.
- `int64` depth and `int` PIDs: the model uses unbounded integers, because process-tree depths stay far below 2^63.

## Findings

| source | as written | input that shows it | evidently intended | confidence | as-written member | corrected member |
|---|---|---|---|---|---|---|
| main.go:132-140 | Only `ValueLen == 0` is rejected before `Value[0]`..`Value[3]` are read. | A CARDINAL property of format 8 with one item: `PropertyReply(1, [0x2A])`. | A property shorter than four bytes gives an error instead of an index-out-of-range panic. | low; not executed | WindowPid.ShortReplyPassesGuard | WindowPid.PidFromReply |
