# koahub-cli: the incremental build and restart loop

This project models the part of `koahub start` that does real work:

- the initial build pass of `start --compile`;
- the build-and-restart loop of `start --watch --compile`.

The source files live under an app directory. Each one has a mirror path under a runtime directory, given by `getRuntimeFile`. A file is stale when its mirror is missing or older. Stale files are compiled with Babel when their extension matches `checkFileExtensions`. Other files are copied, but only when the mirror already exists. `.DS_Store` files are skipped.

In watch mode, the watch callback queues changed paths and arms a settle timer. When a timer fires, the queue is compiled and the runtime child process is restarted.

The model runs against an abstract filesystem: a map from path to node. A directory keeps its entry names in the order `readdirSync` returns them. A file keeps its bytes. Both have a modification time. Each `fs` call becomes a step function on that map. A call that would throw returns `Thrown` or `Err` with the error it raises.

Babel is an opaque function from a file name and its bytes to the compiled code. It returns `None` when `transform` throws. Time is an integer number of milliseconds. Timers are explicit values, and the event loop fires one by calling `Session.Fire`.

Modules, in dependency order:

- `Common`: `Option`.
- `Paths`: the mirror path (`getRuntimeFile`), plus `dirname`, `basename` and `resolve(dir, entry)` on resolved paths.
- `Extensions`: the transformable-file test, with the unescaped regular-expression dot.
- `Fs`: nodes, `fs` errors, the `fs` step functions, and a `FileSystem` class whose methods update its node map. A consistent tree (`Wf`) lists every node in its parent directory, has a node for every listed name, and, as `readdirSync` does, never lists a name twice in one directory.
- `Tree`: `walk` and `checkFilesChange`.
- `Build`: `mkdirsSync`, `fileCopySync`, `compileByBabel`, and the loops that compile a list of files.
- `Watch`: the watch session. It is a class holding the queue, the last event time, the pending timers and the runtime children.

Each imperative operation is a method. Its `ensures` ties the result and the new filesystem to a specification function of the old state. The lemmas then state what those functions do.

Some behaviours of the code are easy to miss; the model states each of them:

- A compile exception in a fired timer is not caught per file. It escapes the timer callback, and the process-wide `uncaughtException` handler only logs it. The rest of the queue is not compiled, the queue is not emptied, and the child is not restarted (`Session.Fire`).
- A burst of events does not push the restart back. Each event clears only the timer it has just created. Events at 0, 30, 60 and 90 ms therefore leave one timer alive, due at 100 ms, which is 100 ms after the first event of the burst (`BurstExample`).
- `walk` returns absolute paths, and `getRuntimeFile` replaces the first occurrence of the app name anywhere in the path. That occurrence can lie in a directory above the app directory (`RuntimeFileCanRewriteAncestor`).
- A non-transformable file is copied only when its mirror already exists. So a new asset never reaches the runtime tree (`CompileSkips`).

## Model

| member | source | states |
|---|---|---|
| Paths.IndexOf | lib/index.js:40 | the search `replace` does: the result is an occurrence of the pattern at or after `from`, no earlier occurrence exists, and `None` means there is none at all |
| Paths.RuntimeFile | lib/index.js:39-41 | when the first occurrence of `appName` is at `i`, the mirror path is the text before `i`, then `runtimeName`, then the text after that occurrence; a path without `appName` is returned unchanged |
| Paths.MirrorRoundTrip | lib/index.js:39-41 | a path that starts with the app name maps to the runtime name plus the same rest, and mapping back restores it |
| Paths.RuntimeFileCanRewriteAncestor | lib/index.js:39-41 | `/happy/app/a.js` with app `app` becomes `/hruntimey/app/a.js`: the first occurrence can lie in an ancestor directory |
| Extensions.CheckFileExtensions | lib/index.js:106-117 | the loop over the four patterns returns true exactly when some unescaped pattern `.js$`, `.jsx$`, `.es6$` or `.es$` matches the file name |
| Extensions.TransformableIff | lib/index.js:106-117 | in plain terms, a name is transformable iff it ends in `js` or `es` after one more character, or in `jsx` or `es6` after one more character, that character not being a line terminator |
| Extensions.DotSuffix | lib/index.js:111-112 | a pattern of an unescaped dot followed by a literal suffix matches exactly when the suffix ends the name and is preceded by a non-line-terminator |
| Extensions.OrderIrrelevant | lib/index.js:108-115 | trying the patterns in any order (any permutation of the list) gives the same answer |
| Tree.Walk | lib/index.js:43-62 | the recursive walk returns `undefined` for a missing directory, otherwise the listing or the exception of the depth-first specification in `readdir` order |
| Tree.WalkEntriesAppend | lib/index.js:53-59 | walking a concatenation of entries concatenates the listings: each subdirectory's listing is spliced in at its position, and the first exception wins |
| Tree.WalkEntriesStep | lib/index.js:53-59 | one loop step extends the listing by one entry's result, and an exception at an entry is the result of the whole walk |
| Tree.WalkListsFiles | lib/index.js:43-62 | in any tree, every listed path is an existing file whose spelling extends the walked directory's |
| Tree.WalkExistingSound | lib/index.js:43-62 | in a consistent tree, the walk of a directory succeeds and lists only files within it |
| Tree.EntryInWalk | lib/index.js:53-59 | what one entry contributes is part of the listing of any entry list holding it |
| Tree.SubwalkContained | lib/index.js:54-55 | the listing of a subdirectory at any depth is part of the listing of the walked directory |
| Tree.WalkComplete | lib/index.js:43-62 | in a consistent tree, every file within the walked directory is listed |
| Tree.WalkListsExactly | lib/index.js:43-62 | in a consistent tree, the walk of a directory succeeds, and a path is listed iff it is a file within that directory |
| Tree.CheckFilesChange | lib/index.js:119-139 | the loop returns the staleness filter of the walk, in walk order, and passes on a walk exception |
| Tree.ChangedFiles | lib/index.js:119-139 | a path is returned iff it was walked and its mirror is absent or has a strictly smaller modification time; equal times are excluded |
| Tree.FilterStaleMembers | lib/index.js:124-136 | the filter keeps a file iff it is in the input and stale |
| Tree.FilterStaleAppend | lib/index.js:124-136 | the filter distributes over concatenation, so it keeps the walk order |
| Tree.ChangedWithoutApp | lib/index.js:122-124 | a missing app directory gives an empty result |
| Build.MkdirsSync | lib/index.js:64-74 | the recursion creates the missing ancestors of the directory, then the directory itself, as its specification does |
| Build.MissingChainOrdered | lib/index.js:64-74 | the directories to create are all missing and ordered parent before child, the first one's parent exists (unless it is a root), and the last is the target |
| Build.MkdirsKeeps | lib/index.js:64-74 | existing nodes are kept untouched (a directory's listing only grows), the tree stays consistent, and every new node is a directory stamped now |
| Build.MkdirsCreatesChain | lib/index.js:64-74 | only directories of the missing chain are created, and on success all of them and the target exist |
| Build.MkdirsEstablishes | lib/index.js:64-74 | after success the target exists with all its ancestors as directories, and a second call changes nothing |
| Build.MkdirsDoneIff | lib/index.js:64-74 | `mkdirsSync` returns rather than throws exactly when the directory exists, or is a non-root spelled as its parent joined with its name whose parent can be made and, if it exists, is a directory |
| Build.FileCopySync | lib/index.js:11-17 | nothing happens when the destination is missing; otherwise its parents are made and it receives the source's bytes |
| Build.CopyOverFile | lib/index.js:13-15 | copying onto an existing file whose directory exists returns normally and replaces exactly that file with the source's bytes, stamped now |
| Build.CompileByBabel | lib/index.js:76-104 | a non-transformable file is copied unless it is `.DS_Store`; a transformable one has its mirror's directories made and the compiler's output written |
| Build.CompileSkips | lib/index.js:79-84 | a non-transformable `.DS_Store`, or any non-transformable file whose mirror is missing, leaves the filesystem unchanged |
| Build.CompileCopies | lib/index.js:11-17 | a non-transformable file whose mirror is an existing file overwrites the mirror with the source bytes, and nothing else changes |
| Build.CompileWritesCode | lib/index.js:86-101 | a transformable file's compiled code is written to the mirror, whether or not it existed; the tree stays consistent, every ancestor of the mirror is a directory, every other node is kept, and the only new nodes are the mirror and the missing directories above it |
| Build.CompileAllAppend | lib/index.js:169-171 | compiling a concatenation compiles the first part and, if nothing was thrown, the second part from there |
| Build.CompileEach | lib/index.js:216-218 | the loop compiles the files in order and stops at the first exception |
| Build.CompileChanged | lib/index.js:239-244 | the build pass compiles exactly the changed files, in order, or passes on the walk's exception |
| Watch.Clear | lib/index.js:229 | clearing a handle keeps exactly the timers with other handles |
| Watch.ClearFresh | lib/index.js:228-230 | clearing the handle just created removes exactly that timer; earlier timers stay |
| Watch.AtMostOneLive | lib/index.js:176-188 | when every child but the last has been killed, at most one child is alive |
| Watch.RestartLeavesOneLive | lib/index.js:222-225 | stop then start leaves every older child killed and exactly one live child, the new one |
| Watch.StopKillsAll | lib/index.js:186-188 | after a stop no child is alive, and the children are the same processes |
| Watch.StopIdempotent | lib/index.js:186-188 | stopping twice is stopping once, and a stop with no child changes nothing |
| Watch.ArmedExactly | lib/index.js:213-232 | an event's timer stays alive iff the event came more than 100 ms after the previous event, or after set-up for the first event |
| Watch.ArmedIds | lib/index.js:214 | every live timer belongs to an event already seen |
| Watch.BurstArmsFirstOnly | lib/index.js:213-232 | in a burst of events, each within 100 ms of the one before, only the first event's timer stays alive |
| Watch.BurstExample | lib/index.js:213-232 | events at 0, 30, 60 and 90 ms leave one timer, due at 100 ms |
| Watch.SeparateEventsExample | lib/index.js:213-232 | events at 0 and 150 ms leave two timers, due at 100 and 250 ms |
| Watch.QueuedAppend | lib/index.js:209-211 | the queue keeps arrival order |
| Watch.QueuedOnlyWhenCompiling | lib/index.js:209-211 | a path is queued iff the compile option is on and some event for it had its `compile` flag set |
| Watch.EventExtends | lib/index.js:207-233 | one more event sets the time to its own, adds its timer iff it is more than 100 ms after the previous event, and queues its path iff both flags are set |
| Watch.ConsistentAfterEvent | lib/index.js:207-233 | the watch callback keeps the session invariant: time, queue, live timers and children agree with the events so far |
| Watch.ConsistentAfterFire | lib/index.js:214-226 | a fired timer keeps the session invariant, whether the compile pass succeeds or throws |
| Watch.Session.constructor | lib/index.js:191-205 | after set-up, one child is running the runtime file with `APP` set to the runtime name, the queue and timers are empty, and the time is the set-up time |
| Watch.Session.Start | lib/index.js:176-184 | a new child is appended, not killed, with the runtime entry and `APP` |
| Watch.Session.Stop | lib/index.js:186-188 | the current child, if any, is sent `kill` |
| Watch.Session.OnChange | lib/index.js:207-233 | the callback queues the path iff both flags are set, keeps its new timer iff the event is more than 100 ms after the last one, records the time, and keeps the invariant |
| Watch.Session.Fire | lib/index.js:214-226 | the timer compiles the queue in order; on success the queue is emptied and the child restarted; on an exception the queue and the child are kept |
| Watch.Session.Settle | lib/index.js:215-225 | after the compile pass, the fired timer is gone; unless the pass threw, the queue is emptied and the child restarted; otherwise queue and children are kept; the invariant holds |

## Left out

- Real `fs`, `path.resolve` and the process's working directory are not modelled. Paths are strings. `resolve(dir, entry)` is the plain join of `dir` and `entry`, and an entry of the directory `.` resolves to its bare name. The walk therefore lists paths in the app directory's own spelling, not absolute ones.
- The model's filesystem refuses to create a path with repeated or trailing separators, which a real filesystem would normalise. The walk is proved complete only for consistent trees, where every path is spelled as the join of its directory and its name.
- Creating an entry does not update the parent directory's modification time. This matters only when a file's mirror path is a directory. `checkFilesChange` then reads that directory's time (lib/index.js:128-130), and the model does not capture how the time would change.
- `stat` follows symbolic links in the source. The model has no links.
- `babel-core` and its preset options are an opaque function. The extra work of `require('babel-core')` is not modelled.
- `$` patterns in the replacement string of `String.replace` are not modelled. `runtimeName` is assumed to hold no `$`.
- Strings are sequences of characters, not UTF-16 code units.
- `child_process.fork` and `kill` are not modelled: a child is a value with a killed flag. Also left out: the `exit` handler's `connected` check, `process.exit`, and the `SIGTERM` and `uncaughtException` handlers. The fork without watching at line 249 is left out too.
- `Date` and `setTimeout` are not modelled: times are integers given by the caller.
- Fs.FileSystem: `now` is a constant of the filesystem, so every write and `mkdirSync` of a run, across all fired timers, gets the same stamp, unrelated to the event times. A mirror's new modification time is therefore not the time of the write, and properties that depend on it, such as a second build pass compiling nothing, are not modelled.
- Watch.Session.Fire: the caller picks which pending timer fires. The model does not enforce that timers fire in order of due time. `Fire` takes no time either, so nothing ties a firing to the event times: a timer due at 100 ms may fire before an event stamped 50 ms, and that event's path then stays queued with no timer left.
- The watch utility that produces the events (`lib/util/watch.util.js`) is not part of this model. Events are calls of `OnChange`. The default `compile = true` of the callback is passed explicitly.
- `mkdirsSync` on a path whose root is missing recurses until the call stack overflows and throws a `RangeError`, which the model represents as the `TooMuchRecursion` error. Its `mode` argument is dropped.
- Logging, the `commander` setup, the `controller` and `create` commands, `getCliPath`, `getBabelPath`, `getKoahubPath` and `run(argv)` are command-line plumbing and are left out.
