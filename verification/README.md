# rawrsync, modelled in Dafny

rawrsync copies a large directory tree with many parallel `rsync` calls. It
first walks the source tree down to a fixed depth to find the directories to
copy. It then records one task per directory in a small SQLite store. Workers
claim batches of unclaimed tasks, run `rsync` on each one and record the
outcome as a new event. An older variant (`async.py`) keeps its progress in a
CSV file instead of the store.

This project models the sequential logic of that core as pure functions over
immutable datatypes:

- `results.dfy` (`Results`): the `Option` and `Result` wrappers.
- `text.dfy` (`Text`): the Python string operations the core relies on. They are
  `str.find`/`rfind`, `str.replace` (every non-overlapping occurrence, left to
  right), `str.split` and `','.join`, `readlines`, `rstrip` and ASCII `lower`.
- `paths.dfy` (`Paths`): `os.path.join`, `os.path.dirname` and the part count of
  `PurePath(path).parts` used by `group_levels`.
- `discovery.dfy` (`Discovery`): the depth-bounded `get_dirs` recursion over a
  directory-tree datatype, and iteration over a set of paths.
- `taskstore.dfy` (`TaskStore`): the `tasks` and `task_event` tables, the
  `new_task` trigger, the two views and the claim step.
- `runners.dfy` (`Runners`): `NullRunner` and `RsyncRunner.process_dir` and the
  root-trim path rewrite. `rsync` itself is a function parameter.
- `copymanager.dfy` (`CopyManager`): the worker loop and `__process_transfer`,
  with workers run one after another and a claim taken as one atomic step.
- `cli.dfy` (`Cli`): `str2bool`.
- `progressfile.dfy` (`ProgressFile`): the CSV progress file of `async.py`. It
  covers line format and parsing, `persist_dirs`, `persist_results`,
  `should_process` and the filtering in `discover_paths`.
- `async.dfy` (`AsyncTransfer`): the `async.py` versions of `get_dirs`,
  `discover_paths` and `process_dir`, and the sort-then-group level order.

A task's current status is the status of its event with the largest rowid.
The views compute it with `GROUP BY t.rowid HAVING MAX(e.rowid)`, which relies
on SQLite's bare-column behaviour. The model takes that intent as its
definition.

## Model

| member | source | states |
|---|---|---|
| Cli.Str2Bool | rawrsync.py:10-16 | true exactly when the lower-cased argument is one of yes/true/t/y/1; false exactly when it is one of no/false/f/n/0; otherwise the error "Boolean value expected." |
| Cli.TrueFalseDisjoint | rawrsync.py:11-14 | no word is in both the true list and the false list, so the order of the two tests does not matter |
| Cli.Str2BoolIgnoresCase | rawrsync.py:11-13 | lower-casing the argument first gives the same answer |
| Cli.Str2BoolExamples | rawrsync.py:10-16 | "Yes" and "TRUE" are true, "F" and "0" are false, "on" is an error |
| Runners.ProcessDir | copyrunner.py:11-33 | the null runner gives ('no-op', copy_from) whatever the root and destination; the rsync runner runs rsync on the source with every occurrence of the root replaced by root + "/." and hands back the copy result unchanged, with status completed exactly when the return code is 0 and errored exactly when it is not; no runner reports discovered or progress |
| Runners.TrimRootAsWritten | copyrunner.py:33 | the root trim as written: every occurrence of the root in the source path gets "/." appended; its behaviour is stated by Runners.TrimAsWrittenAgrees and Runners.TrimRootRewritesInnerOccurrence |
| Runners.ProcessDirTrimsOnce | copyrunner.py:17-33 | when the root occurs in the source only as its prefix, rsync gets root + "/." + the rest, the anchored path, and the status is completed exactly when that copy returns 0 |
| Runners.ProcessDirRewritesInnerOccurrence | copyrunner.py:17-33 | for /data/data2 under /data, rsync runs on /data/./data/.2, and the status follows that copy's return code |
| Runners.TrimAsWrittenAgrees | copyrunner.py:33 | when the path is root + suffix and the root does not occur in the suffix, the replace gives root + "/." + suffix, the same as the anchored rewrite |
| Runners.TrimRootRewritesInnerOccurrence | copyrunner.py:33 | the replace as written turns "/data/data2" under root "/data" into "/data/./data/.2"; the anchored rewrite gives "/data/./data2" |
| Runners.TrimRootRoundTrip | copyrunner.py:33 | the anchored root trim can always be undone: removing the inserted "/." gives back the original path |
| Paths.Join | copymanager.py:15 | os.path.join of two parts: an absolute second part replaces the first, otherwise one slash joins them unless the first is empty or already ends in a slash; stated through Paths.DirnameOfJoin and Paths.LevelOfJoin |
| Paths.Dirname | copymanager.py:17 | os.path.dirname: everything up to and including the last slash, with trailing slashes stripped unless only slashes remain; stated through Paths.DirnameShorter and Paths.DirnameOfJoin |
| Paths.DirnameOfJoin | copymanager.py:15-17 | for an entry name n (no slash, not empty) and a directory p that does not end in a slash, or is made only of slashes, the parent of join(p, n) is p; "/data/" + "a" has parent "/data", so the condition is needed |
| Paths.DirnameShorter | copymanager.py:16-17 | os.path.dirname returns its argument only for a path made of slashes; any other path gets strictly shorter, so a leaf reports something other than itself |
| Paths.GroupLevels | async.py:84-85 | group_levels: len(PurePosixPath(p).parts) - 1, where the leading root counts as one part and every other non-empty component except "." as another; stated through Paths.LevelOfJoin |
| Paths.LevelOfJoin | async.py:84-85 | group_levels of a child path is one more than that of its parent |
| Discovery.GetDirs | copymanager.py:11-20 | the result of get_dirs is never empty |
| Discovery.LeafReportsParent | copymanager.py:12-17 | at depth 0 the result is [current_dir]; at every other depth a directory with no subdirectories gives [dirname(current_dir)], which differs from current_dir unless current_dir is made only of slashes (for "/", dirname("/") is "/") |
| Discovery.GatherFromMember | copymanager.py:19-20 | a path is in the chained children's results exactly when it is in the result of some child, taken at depth - 1 |
| Discovery.GetDirsReports | copymanager.py:11-20 | a path is reported exactly when some route down the tree stops there: at depth 0 with the directory itself, or at a leaf with the leaf's parent |
| Discovery.GetDirsSound | copymanager.py:11-20 | every reported path is where some route down the tree stops |
| Discovery.GetDirsComplete | copymanager.py:11-20 | every place a route down the tree stops is reported |
| Discovery.ExampleWalk | copymanager.py:11-20 | on /root holding a/ (with empty x/ and y/) and an empty b/, depth 4 gives /root/a twice and /root once, so the set of paths is {/root/a, /root} |
| Discovery.Enumerate | copymanager.py:47 | iterating a set of paths lists each member exactly once and nothing else |
| TaskStore.LastEvent | taskpersistence.py:107-109 | finds the event with the largest rowid for a task id, or reports that the task has no event |
| TaskStore.ViewRowsFrom | taskpersistence.py:85-112 | each view row carries a task, its latest event and that event's status, which the view selects; rows come in increasing event rowid |
| TaskStore.UnclaimedTasks | taskpersistence.py:85-112 | the unclaimed_task view lists a task id exactly when the task's latest event is discovered |
| TaskStore.RemainingTasks | taskpersistence.py:114-139 | the remaining_tasks view, which get_remaining_tasks reads, lists a task id exactly when the task's latest event is anything but completed |
| TaskStore.ViewListsSelected | taskpersistence.py:85-139 | a task id is listed by a view exactly when its current status is selected by that view (discovered for unclaimed, anything but completed for remaining), and no task is listed twice |
| TaskStore.CompletedNotListed | taskpersistence.py:112-139 | a task whose current status is completed is in neither the unclaimed nor the remaining view |
| TaskStore.UnclaimedAreRemaining | taskpersistence.py:112-139 | every unclaimed task is also a remaining task |
| TaskStore.LastEventAppend | taskpersistence.py:43 | after appending events, a task's latest event is its latest among the new ones if there is one, else the old one |
| TaskStore.UpdateTask | taskpersistence.py:39-46 | appends exactly the given (task id, status) pairs as events, in order, and leaves the tasks and every earlier event unchanged, and keeps the store well formed |
| TaskStore.StatusAfterUpdate | taskpersistence.py:39-46 | after an update, a task's status is the last status the update gave it, or unchanged if the update did not mention it |
| TaskStore.AddTask | taskpersistence.py:141-147 | a new triple is appended together with exactly one new event: its new id (the task count plus one) with status discovered; an existing triple leaves the store unchanged; other tasks keep their status |
| TaskStore.AddTasks | taskpersistence.py:29-37 | the task set becomes the old set plus the given triples; one event per task actually inserted; old tasks and events unchanged; every new task is discovered |
| TaskStore.AddExistingIgnored | taskpersistence.py:33 | inserting a triple already present changes neither table |
| TaskStore.Limit | taskpersistence.py:61 | LIMIT count keeps a prefix of the rows, at most count long when count is not negative, and all rows otherwise |
| TaskStore.StatusAfterProgress | taskpersistence.py:65-66 | after the progress events, every claimed task is in progress and every other task keeps its status |
| TaskStore.GetUnclaimedTasks | taskpersistence.py:60-67 | a claim returns the first rows of the unclaimed view: exactly count of them when more than count are unclaimed, all of them otherwise (every one for a negative count); the rows are distinct tasks, each unclaimed before the call; each claimed task is then in progress and no other status changes; the task table is unchanged and the events grow by exactly one progress event per claimed row, in claim order; an empty claim appends nothing and happens exactly when count is 0 or nothing is unclaimed |
| TaskStore.ClaimLeavesRest | taskpersistence.py:60-67 | after a claim, the unclaimed tasks are exactly those that were unclaimed and not taken |
| TaskStore.ClaimTakesAll | taskpersistence.py:60-67 | a claim with room for every unclaimed task leaves nothing unclaimed |
| TaskStore.SuccessiveClaimsDisjoint | taskpersistence.py:22-24 | two claims in a row never return the same task |
| CopyManager.ProcessTask | copymanager.py:64-70 | processing one claimed row appends exactly one event, which gives its task the runner's status for that task; no other task's status changes and earlier events are kept |
| CopyManager.ProcessBatch | copymanager.py:64-69 | running a claimed batch appends exactly one event per row and records, for each task in it, the status the runner gives that task; other tasks keep their status and earlier events are kept |
| CopyManager.ClaimShrinks | copymanager.py:58-62 | a claim of 10 removes exactly as many tasks from the unclaimed set as it returns, so the unclaimed count measures the loop |
| CopyManager.ClaimEmptyMeansDone | copymanager.py:59 | when a claim returns nothing, no task is unclaimed |
| CopyManager.WorkerStep | copymanager.py:58-62 | one round of the worker loop (process the batch, claim again) keeps the loop invariant and strictly decreases the unclaimed count plus the batch size |
| CopyManager.Worker | copymanager.py:54-62 | when a worker returns, nothing is unclaimed; each task that was unclaimed when it started carries the runner's status for that task; every other task keeps its status; events are only appended |
| CopyManager.TasksForFound | copymanager.py:47-49 | the inserted triples are exactly (source, p, destination) for the paths p found by discovery |
| CopyManager.AddedAfterWorker | copymanager.py:49-51 | inserting the found tasks before the workers run changes nothing for old tasks and makes every new task end with the runner's status |
| CopyManager.ProcessTransfer | copymanager.py:46-51 | the task table becomes the old tasks plus (source, p, destination) for each discovered p; with at least one worker nothing is left unclaimed, every new task ends with the runner's status and old tasks end as one worker leaves them |
| ProgressFile.ParseLine | async.py:110 | a line parses exactly when it has at least three comma fields, and otherwise fails with an index error; the source and target are the comma-free text before the first two commas, and the status is the third field with its trailing newlines removed, lower-cased |
| ProgressFile.ParseFormat | async.py:110 | a line written as source,target,status with a newline reads back as (source, target, status lower-cased) when the fields hold no comma or newline, so "COMPLETED" reads back as "completed" |
| ProgressFile.FormatInjective | async.py:130 | two different results with plain fields are never written as the same line |
| ProgressFile.LoadDirs | async.py:108-110 | load_dirs: the lines of the file, each parsed; stated through ProgressFile.ParseAll and ProgressFile.PersistDirsReadsBack |
| ProgressFile.ParseAll | async.py:108-110 | reading the file succeeds exactly when every line parses, and then gives one result per line, in order |
| ProgressFile.NewDirs | async.py:126-127 | the new directories are exactly the found paths that are not already the source of some line |
| ProgressFile.PersistDirs | async.py:123-131 | persisting fails exactly when the existing file does not parse, and otherwise only appends to the content |
| ProgressFile.PersistDirsReadsBack | async.py:123-131 | on a well-formed file, reading back after persisting gives the old results followed by (p, copy_to, discovered) for each new path |
| ProgressFile.PersistKnown | async.py:125-131 | when every path is already a source, whatever its target or status, the file is unchanged |
| ProgressFile.PersistDirsIdempotent | async.py:123-131 | persisting the same paths twice is the same as persisting them once |
| ProgressFile.ShouldProcess | async.py:133-134 | should_process: the status is not completed and the target is this destination; used by ProgressFile.ToProcess |
| ProgressFile.ToProcess | async.py:143 | a path is kept exactly when some line for it is not completed and targets this destination |
| ProgressFile.DiscoverFrom | async.py:139-143 | discovery filtering only appends to the file, and what it lists is should_process applied to the file it reads back |
| ProgressFile.DiscoverListsExactly | async.py:136-143 | on a well-formed file, a path is listed exactly when an existing line for it is still to be copied to this destination, or it was found now and the file did not know it |
| ProgressFile.PersistResultsAsWritten | async.py:112-120 | persist_results as written: for each result in turn, every occurrence of its discovered line in the whole content is replaced by its result line; stated through the next three lemmas (PersistDiscoveredUnchanged, PersistAbsentUnchanged, PersistResultsRewritesSuffixPath) |
| ProgressFile.PersistDiscoveredUnchanged | async.py:112-120 | persisting results whose status is discovered leaves the content unchanged |
| ProgressFile.PersistAbsentUnchanged | async.py:112-120 | results whose discovered line does not occur in the content leave it unchanged |
| ProgressFile.PersistResultsRewritesSuffixPath | async.py:112-120 | the whole-content replace also rewrites the line of a different directory whose path ends with the result's path |
| ProgressFile.PersistResults | async.py:112-120 | persist_results as intended: each line of the file equal to a result's discovered line becomes that result's line; stated through the lemmas RewriteKeepsOtherLines, PersistResultsUnmatchedUnchanged, PersistAgreeOnOwnLine, RewriteMarksEachDirectory and PersistResultsKeepsSuffixPath |
| ProgressFile.RewriteKeepsOtherLines | async.py:112-120 | line by line, a line that is no result's discovered line is kept |
| ProgressFile.PersistResultsUnmatchedUnchanged | async.py:112-120 | line by line, a file none of whose lines is a result's discovered line is written back unchanged |
| ProgressFile.PersistAgreeOnOwnLine | async.py:112-120 | on a directory's own discovered line, the as-written replace and the whole-line rewrite agree: both turn the line into the result line |
| ProgressFile.RewriteMarksEachDirectory | async.py:112-120 | with one result per directory, every discovered line of a result's directory becomes that result's line |
| ProgressFile.PersistResultsKeepsSuffixPath | async.py:112-120 | line by line, another directory whose path merely ends with the result's path keeps its line |
| AsyncTransfer.GetDirsAsync | async.py:72-82 | the async get_dirs gives the same result as the synchronous one: [current_dir] at depth 0, [dirname] at a leaf, never empty |
| AsyncTransfer.DiscoverPaths | async.py:136-143 | discover_paths fails when the progress file does not parse, only appends to it, and on a well-formed file lists exactly the known paths still to do for this destination plus the newly found ones |
| AsyncTransfer.SortByKey | async.py:156 | sorted() by a key is a permutation and ascends in the key |
| AsyncTransfer.SortKeepsKeyOrder | async.py:156 | the sort is stable: the paths with any one key keep their relative order |
| AsyncTransfer.AtKeyMembers | async.py:156 | the per-key selection that the stability lemma compares holds exactly the directories of the list with that key |
| AsyncTransfer.GroupByKey | async.py:156 | groupby cuts the sequence into consecutive groups that concatenate back to it, the first group having the first element's key |
| AsyncTransfer.GroupsAreRuns | async.py:156 | every groupby group holds only its key, and neighbouring groups have different keys |
| AsyncTransfer.SortedGroupsIncrease | async.py:156 | grouping a key-sorted sequence gives strictly increasing keys |
| AsyncTransfer.LevelOrder | async.py:155-158 | the level groups hold exactly the given directories, each group one level |
| AsyncTransfer.LevelOrderShallowestFirst | async.py:155-158 | levels are enqueued shallowest first, and each level's group is the directories at that level in their original order |
| AsyncTransfer.CopyDir | async.py:53-65 | copy_dir runs the copy on the source trimmed as written; it returns the process's record exactly when its streams were piped, and otherwise raises on stdout.decode() |
| AsyncTransfer.ProcessDirAsync | async.py:88-99 | the async process_dir reports completed exactly when the copy returns, whatever the return code, and errored exactly when it raises |
| AsyncTransfer.AsyncAlwaysErrors | async.py:59-99 | with the subprocess started unpiped, as written, process_dir reports errored for every directory, even one whose copy returned 0 and which the synchronous runner reports completed |
| AsyncTransfer.PipedAsyncCompletes | async.py:59-99 | with both streams piped, every copy returns its record and process_dir reports completed |
| AsyncTransfer.AsyncIgnoresReturnCode | async.py:88-99 | even with piped streams, for a non-zero rsync return code the synchronous runner reports errored while the async process_dir reports completed |

## Left out

- SQLite itself is not modelled: connections, commit and close, and the `DATETIME('now')` change times. The tables are sequences, and the timestamp column is dropped because no decision reads it.
- The order of rows in the views is the model's reading of the subquery's `ORDER BY e.rowid`: ascending latest-event rowid. SQL does not promise that the outer query keeps this order. The ordering clause of `TaskStore.ViewRowsFrom` and the prefix clause of `TaskStore.GetUnclaimedTasks` (which rows a partial claim takes) depend on this reading. Membership, count and distinctness do not.
- The progress file is read with universal newlines and written with the platform encoding. The content the model parses is the text as Python reads it back. A carriage return written into the file ends a line when it is read, so `ProgressFile.Plain` excludes `\r` as well as `,` and `\n`. The lemmas that read a written file back (`PersistDirsReadsBack`, `PersistDirsIdempotent`, `DiscoverListsExactly`, `AsyncTransfer.DiscoverPaths`) promise nothing for a path holding one of these characters. In the source such a path makes a later `load_dirs` raise `IndexError`. Encoding errors are not modelled either, for example a `UnicodeEncodeError` when a surrogate-escaped name from `os.listdir` is written.
- The foreign key `REFERENCES tasks(id)` names a column that does not exist, and SQLite does not enforce foreign keys by default. `UpdateTask` therefore accepts any task id.
- Statuses are an enumeration of the five words the core writes. `update_task` would store any string.
- `print_stats`, the `print` calls and logging only produce output, so they are not modelled.
- `reset_tasks` does nothing, so it is not modelled.
- The asyncio lock, `threading.Lock`, `ThreadPoolExecutor` and `asyncio.gather` are not modelled. A claim is one atomic step, and the `thread_count` workers run one after another. No interleaving of workers is modelled.
- `os.listdir` and `os.path.isdir` are replaced by a directory-tree datatype, with children in listing order.
- Iterating a Python `set` has no fixed order. `Discovery.Enumerate` fixes one order, and only membership and distinctness are stated about it.
- The text of the rsync and `mkdir -p` shell commands, their quoting and the subprocess itself are not modelled (`copyrunner.py:34-40`, `async.py:55-60`). The process outcome is a function parameter of the trimmed source and the destination. What happens after it is modelled: the record the synchronous runner builds, and the async copy's `communicate()` and `decode()` (`AsyncTransfer.CopyDir`).
- File open, read and write in `async.py` are not modelled. The file is its content as a string.
- The async queue, its workers and their cancellation are not modelled. So are `process_dir_level` and the order of the `process_results` list.
- `persist_dirs` parses each status without stripping its newline (`async.py:125`). The model reads lines as `load_dirs` does, because `persist_dirs` only uses the sources.
- `lower()` is ASCII-only, with no Unicode case mapping.
- The argparse setup, the `thread_count` default from `cpu_count()` and timing in `rawrsync.py` and `async.py` are not modelled.
- `copyui.py` is not part of this model. It is a curses display, and it calls store methods that do not exist.
- Discovery scenario: for a root holding `a/` (with empty `x/` and `y/`) and an empty `b/`, the code reports `{/root/a, /root}`, not `/root/b`. The empty `b` reports its parent. The model follows the code (`Discovery.ExampleWalk`).
- Level order: the comment says "deepest first", but the code sorts in ascending level. The model follows the code (`AsyncTransfer.LevelOrderShallowestFirst`).
- Return code: the async `process_dir` would report completed on any return code once its copy returned. As written it never returns (see Findings), so every directory is reported errored. The model follows the code (`AsyncTransfer.AsyncAlwaysErrors`, `AsyncTransfer.AsyncIgnoresReturnCode`).
- CopyManager.ProcessTask: the runner and `update_task` never raise in the model. In the source, an exception in `process_task` (`copymanager.py:66-70`) propagates through `run_in_executor` and `gather` (`copymanager.py:61`, `51`). It ends the whole transfer and leaves the claimed batch in `progress`. The worker results (`CopyManager.Worker`, `CopyManager.ProcessTransfer`) hold only for runs where nothing raises.
- Discovery.GetDirs: its own contract states only that the result is non-empty. Its full meaning is stated by `Discovery.GetDirsReports` and `Discovery.LeafReportsParent`.

## Findings

| source | as written | input that shows it | evidently intended | confidence | as-written member | corrected member |
|---|---|---|---|---|---|---|
| copyrunner.py:33 | `from_dir.replace(root_dir, root_dir + '/.')` rewrites every occurrence of the root, not only the leading one. `async.py:54` has the same line. | root `/data`, path `/data/data2` gives `/data/./data/.2` | insert `/.` only after the leading root: `/data/./data2` | not executed | Runners.TrimRootRewritesInnerOccurrence | Runners.TrimRootRoundTrip |
| async.py:59-65 | `create_subprocess_shell(copy_cmd)` is called without `stdout=PIPE` or `stderr=PIPE`, so `communicate()` gives `(None, None)` and `stdout.decode()` raises `AttributeError` after every copy; the bare `except` in `process_dir` (`async.py:93-94`) then reports `errored` | any directory, including one whose rsync exits with 0 | pipe both streams, as `copyrunner.py:36-40` does, so that the copy returns its record | not executed | AsyncTransfer.AsyncAlwaysErrors | AsyncTransfer.PipedAsyncCompletes |
| async.py:112-120 | `content.replace(search, replace)` is not anchored at the start of a line | the line `/r/b/r/a,/d,discovered` with the result (`/r/a`, `/d`, completed) becomes `/r/b/r/a,/d,completed` | rewrite only whole lines equal to the result's `discovered` line | not executed | ProgressFile.PersistResultsRewritesSuffixPath | ProgressFile.PersistResultsKeepsSuffixPath |
