# LogInjector core in Dafny

A model of the core of the Go logging library LogInjector (package
`loginjector`), with proofs about it:

- **Logger** (`logger.dfy`, module `Logging`). A logger has a minimum level, a
  fixed list of base writers and a list of hooks. Every hook entry has an id,
  one level and one writer. `WriteLog` first calls the writer of every hook
  whose level *equals* the message level. Below the threshold it stops and
  returns `(0, nil)`. Otherwise it also calls every base writer and returns the
  message length together with `errors.Join` of the writers' errors.
- **Log events** (`logevent.dfy`, module `LogEvents`). A record buffers
  newline-terminated messages. On `Close` it sends the buffer, the
  `STACKTRACE:\n` marker and the captured stack trace through its logger at
  its level. The process-wide default logger is an explicit `Defaults` object.
- **File handlers** (`handler.dfy`, module `Handlers`):
  - the rotating handler writes to `prefix.%0.8X.log` and moves to the next
    index once the size limit is passed;
  - the per-day handler writes to `2006-01-02.log` and prunes on a new day;
  - `verifyFiles` removes the oldest `.log` files, in name order, until at
    most `limit` remain;
  - the silence handler discards messages.

  A folder is a `Directory` object holding a map from file names to
  contents.
- **HTTP payload middleware** (`middleware.dfy`, module `Middleware`). The
  interceptor copies the request body the handler reads and every response
  byte it writes, and remembers the last status code. It renders the exchange
  as one message: request line, non-credential request headers, payload,
  status line, response headers, response body.
- Shared pieces:
  - `errors.dfy` (`Errors`): Go's `errors.Join`;
  - `text.dfy` (`Text`): `TrimSpace`, `strings.Join`, `%d` and `%0.8X`;
  - `order.dfy` (`Order`): Go's byte-wise string order and `sort.Strings`
    over a set of names.

Output writers are opaque identifiers (`WriterId`). Whether a call fails is
given by a failure oracle, which fixes one outcome per writer and per file
name for the whole operation:

- writers: `fails: WriterId -> Option<Error>`, one outcome per writer for one
  `WriteLog`;
- the file system: `Faults.open` and `Faults.remove`, keyed by file name.

The goroutine fan-out of `WriteLog` becomes a sequential loop. The loop
returns, in order, every writer call it makes (`Delivery`): hooks first,
then base writers.

The model follows the code where a plain reading of the library's
documentation suggests otherwise:

- **Hook levels.** A hook fires only when the message level equals the hook's
  level (`level != h.Level` skips it, `pkg/logger.go:111`). It does not fire
  for levels at or above the hook's level.
- **Hook shape.** `Hook` registers one writer under several levels that share
  one id. It does not register several writers under one level.
- **Lost hook errors.** Below the threshold, hook writers are still called,
  but their errors are dropped (`pkg/logger.go:123-125`).
- **Status code 0.** The interceptor's status code stays 0 when the wrapped
  handler never calls `WriteHeader`. The logged status line then reads
  `<proto> 0 <StatusText(0)>`, even though net/http has sent 200.

## Model

| member | source | states |
|---|---|---|
| Errors.Join | pkg/logger.go:139 | `errors.Join` is nil exactly when every argument is nil; otherwise it wraps exactly the non-nil arguments, in order |
| Errors.JoinEachNilIff | pkg/handler.go:203-206 | folding `err = errors.Join(err, e)` over a loop ends nil exactly when it started nil and every step was nil |
| Text.TrimSpaceIsSlice | pkg/handler.go:105 | `TrimSpace` returns the slice between a white-space prefix and a white-space suffix, and neither end of the result is white space |
| Text.TrimSpaceIdempotent | pkg/handler.go:151 | trimming twice (the per-day handler does) is trimming once |
| Text.DecimalRoundTrip | pkg/middleware.go:113 | the `%d` of the status code reads back as the code, negative values included |
| Text.PaddedHexRoundTrip | pkg/handler.go:90 | a `%0.8X`-style zero-padded hex field has its width and reads back as the number |
| Text.Hex8Properties | pkg/handler.go:90 | `%0.8X` of an index has at least 8 digits, exactly 8 below 16^8, all of them upper-case hex digits, and reads back as the index |
| Order.BelowTotal | pkg/handler.go:201 | the string order of `sort.Strings` is total; `BelowIrreflexive` and `BelowTransitive` make it strict |
| Order.BelowCommonPrefix | pkg/handler.go:197-201 | a shared prefix (such as the folder in the paths Glob returns) does not change the order |
| Order.PaddedOrder | pkg/handler.go:90 | zero-padded numbers of one width sort as the numbers do |
| Order.SortedNamesSpec | pkg/handler.go:201 | the sorted names of a set are ascending and hold each element exactly once |
| Order.AscendingIsSorted | pkg/handler.go:201 | an ascending sequence is the sorted form of its elements, so sorting has a single answer |
| Order.SortStrings | pkg/handler.go:201 | sorting by repeated choice of the least remaining name gives the sorted names |
| Logging.NewLogger | pkg/logger.go:13-24 | a fresh logger with the given threshold and no hooks; with no handlers, the single console handler; never an error |
| Logging.Logger.SetMinLevel | pkg/logger.go:35-40 | the threshold becomes the given level |
| Logging.Logger.Hook | pkg/logger.go:43-64 | appends one entry per level (first the given level, then each additional level), all with the returned fresh id and the same writer |
| Logging.Logger.Unhook | pkg/logger.go:67-80 | the hook list becomes the old list without the entries carrying the id, order kept |
| Logging.Logger.WriteLog | pkg/logger.go:102-140 | the count, error and writer calls are the dispatch function's |
| Logging.Logger.CallHooks | pkg/logger.go:110-121 | calls the writer of each hook whose level equals the message level, in hook order, collecting each failure |
| Logging.Logger.CallHandlers | pkg/logger.go:127-135 | calls every base writer once, in order, collecting each failure |
| Logging.HookTargetsIff | pkg/logger.go:110-113 | a writer is reached through hooks exactly when some hook with that writer has a level equal to the message level |
| Logging.RoutingIff | pkg/logger.go:102-140 | a writer receives the message exactly when a hook for that level holds it, or the level is at or above the threshold and it is a base writer; every call carries the message unchanged |
| Logging.BelowThreshold | pkg/logger.go:123-125 | below the threshold the result is `(0, nil)` and only the matching hooks are called, even when they fail |
| Logging.AtOrAboveThreshold | pkg/logger.go:127-139 | at or above the threshold the count is the message length, every base writer is called once after the hooks, and the error is nil exactly when no call failed |
| Logging.FailuresEmptyIff | pkg/logger.go:117-119 | no error is collected exactly when every called writer succeeded |
| Logging.FailuresContain | pkg/logger.go:131-133 | every failing call contributes its own error to the joined error |
| Logging.RegisteredShape | pkg/logger.go:49-61 | one Hook call registers exactly one entry per level, in order |
| Logging.WithoutMembers | pkg/logger.go:73-77 | Unhook keeps exactly the entries with another id and never grows the list |
| Logging.WithoutUnknown | pkg/logger.go:67-80 | Unhook with an id nobody holds leaves the hooks unchanged |
| Logging.HookThenUnhook | pkg/logger.go:43-80 | Unhook of a freshly returned id restores the hook list that existed before the Hook call |
| Logging.DispatchAfterUnhook | pkg/logger.go:43-140 | after Hook and then Unhook of that id, dispatch is exactly as before the Hook |
| Logging.Logger.Write | pkg/logger.go:181-183 | dispatches at the logger's own threshold, so the count is always the message length |
| Logging.Logger.Print | pkg/logger.go:143-158 | dispatches the formatted text with a line break added |
| Logging.Logger.WriterAs | pkg/logger.go:186-193 | a fresh writer bound to this logger and the given level |
| Logging.LevelWriter.Write | pkg/logger.go:188-190 | writing to a level writer is dispatching at its level |
| Logging.Logger.JoinAs | pkg/logger.go:83-99 | one writer at the given level, handed to every output in order |
| LogEvents.LinesAppend | pkg/logevent.go:57-67 | the buffer after two runs of writes is the buffers of the two runs concatenated |
| LogEvents.Details | pkg/logevent.go:78-81 | the payload Close sends is the buffer, the 12-byte marker, then the stack trace |
| LogEvents.Record.constructor | pkg/logevent.go:34-44 | a new record has an empty buffer and the given level, logger and traces |
| LogEvents.Record.Write | pkg/logevent.go:57-67 | appends the message and a line break; returns the message length and no error |
| LogEvents.Record.Close | pkg/logevent.go:70-88 | with no logger: "logger is not set", nothing sent, buffer kept; otherwise the details go out once at the record's level, and the buffer is emptied exactly when that succeeds |
| LogEvents.Record.Error | pkg/logevent.go:96-101 | the accumulated messages, each with its line break, in write order |
| LogEvents.QuietRecordCloses | pkg/logevent.go:83-86 | a record below its logger's threshold still closes without error (so Close empties its buffer), and the only writers it reaches are its level's hooks |
| LogEvents.Defaults.UseAsDefault | pkg/logevent.go:117-119 | the default logger becomes the given one |
| LogEvents.CreateLogEvent | pkg/logevent.go:14-16 | a fresh record bound to the current default logger, with no buffered messages and no writes |
| LogEvents.CreateAndCloseLogEvent | pkg/logevent.go:20-29 | with no default logger, the error wraps "logger is not set"; otherwise the message and a line break are sent with the marker and stack trace, and a send error comes back wrapped by `errors.Join(nil, e)` |
| Handlers.LogPattern | pkg/handler.go:197 | under glob matching, where `*` matches any run of bytes without a path separator, `*.log` matches exactly the names that end in ".log" and hold no separator; these are the names verifyFiles lists, so files in subfolders are not listed |
| Handlers.LiteralMatches | pkg/handler.go:197 | a glob pattern without `*` matches only itself |
| Handlers.DeleteCount | pkg/handler.go:203 | the removal loop visits as many files as leave min(count, max(limit, 0)) behind, and stops at the first index where no more than `limit` remain |
| Handlers.RemovalCount | pkg/handler.go:203-205 | trying to remove some log files takes away exactly those whose removal succeeds, so the number of log files drops by the number of successful removals |
| Handlers.RemovalSnoc | pkg/handler.go:203-205 | one more attempted removal takes that file away when it succeeds and changes nothing when it fails |
| Handlers.RemoveOldest | pkg/handler.go:203-206 | the loop leaves the folder and the error as the removal of the first DeleteCount names specifies |
| Handlers.VerifyFiles | pkg/handler.go:195-207 | the folder after verifyFiles is the pruned folder, and the error is the fold of every removal's outcome |
| Handlers.VictimsAreOldest | pkg/handler.go:201-205 | only log files are visited, and each visited one sorts before every log file that is not visited |
| Handlers.PrunedRemovesOldestLogs | pkg/handler.go:195-207 | pruning only removes files; every non-log file stays; each removed file sorts before every remaining log file |
| Handlers.PrunedLogs | pkg/handler.go:203-205 | when removal never fails, the remaining log files are the old ones minus the visited ones |
| Handlers.PrunedCount | pkg/handler.go:203-206 | when removal never fails, exactly min(count, max(limit, 0)) log files remain, with no error |
| Handlers.PrunedWithinLimit | pkg/handler.go:198-206 | with no more log files than the limit, nothing changes and there is no error |
| Handlers.PruneErrorIff | pkg/handler.go:203-206 | verifyFiles returns nil exactly when every attempted removal succeeded |
| Handlers.AppendedTwice | pkg/handler.go:93-115 | two appends to one file opened with O_APPEND leave the same folder as one append of both pieces, which is why the message and its line break can be written separately |
| Handlers.AppendLine | pkg/handler.go:103-115 | the two writes leave the data and a line break at the end of the file, and count both |
| Handlers.FileNameIsLog | pkg/handler.go:90 | a rotating handler's file name, taken as given, matches `*.log` exactly when the prefix holds no path separator |
| Handlers.FileNameOrder | pkg/handler.go:90 | while the index is below 16^8, a later file's name sorts after an earlier one's, so pruning removes the oldest files |
| Handlers.CyclicFilesHandler.constructor | pkg/handler.go:87-90 | index 1, size 0, and (through the handler invariant) the file name of index 1, `prefix.00000001.log` |
| Handlers.CyclicFilesHandler.Write | pkg/handler.go:92-127 | open failure: `(0, err)` and nothing changes; otherwise the trimmed message and a line break are appended, and the count is their length; the handler rotates exactly when the running size passes the capacity: size 0, next index, pruned folder, the prune error joined onto nil |
| Handlers.CyclicFilesHandler.Rotate | pkg/handler.go:119-124 | size 0, index plus one, the name of the new index, and the folder pruned to the limit |
| Handlers.OnlyOldestVictim | pkg/handler.go:201-205 | with one log file more than the limit, the only file visited for removal is the oldest |
| Handlers.AppendedLogs | pkg/handler.go:93-103 | appending to a log file in a folder of log files lists the old names and that one |
| Handlers.WriteWithin | pkg/handler.go:92-115 | with nothing failing, a trimmed message that fits goes to the current file with a line break, and the handler stays on that file |
| Handlers.WriteRotating | pkg/handler.go:92-127 | with nothing failing and no more log files than the limit, a trimmed message that passes the capacity is appended, the handler moves to the next index with size 0, and nothing is removed |
| Handlers.WriteRemovingOldest | pkg/handler.go:92-127 | with nothing failing and one log file more than the limit, a trimmed message that passes the capacity is appended, the handler moves on, and exactly the oldest file is removed |
| Handlers.FirstFile | pkg/handler_test.go:46-91 | on a fresh handler with capacity 7 and limit 3, three 2-byte messages fill file 1 with three lines and move the handler to index 2, without errors |
| Handlers.SecondFile | pkg/handler_test.go:93-127 | a 1-byte and then a 5-byte message fill file 2 and move the handler to index 3, without errors |
| Handlers.ThirdFile | pkg/handler_test.go:129-132 | a 10-byte message fills file 3 alone and moves the handler to index 4; with three log files nothing is removed |
| Handlers.FourthFile | pkg/handler_test.go:133-152 | a 10-byte message fills file 4 alone, and the rotation removes file 1, the oldest of four |
| Handlers.FourthName | pkg/handler.go:90 | files 1 to 4 of one prefix are four distinct log names, file 1 the oldest |
| Handlers.CyclicRun | pkg/handler_test.go:46-152 | for any prefix without a path separator and any messages of the test's lengths without surrounding white space, the seven writes leave exactly files 2, 3 and 4, holding messages 4 and 5, 6 and 7, and no write reports an error |
| Handlers.CyclicScenario | pkg/handler_test.go:46-152 | the test's seven writes ("11", "22", "33", "4", "55555", ten 6s, ten 7s) leave exactly files 2, 3 and 4 holding "4\n55555\n", "6666666666\n" and "7777777777\n", with no error |
| Handlers.DayFileNameOrder | pkg/handler.go:137 | the file of a later calendar day sorts after an earlier day's, so pruning removes the oldest days |
| Handlers.DailyFilesHandler.constructor | pkg/handler.go:133-134 | no file has been written yet |
| Handlers.DailyFilesHandler.Write | pkg/handler.go:136-169 | open failure: `(0, err)` and nothing changes; otherwise the twice-trimmed message and a line break go to the day's file; when that file differs from the last one written it becomes the last one and the folder, new file included, is pruned, the prune error joined onto nil |
| Handlers.SilenceWrite | pkg/handler.go:175-181 | the whole length, no error |
| Middleware.HeaderToString | pkg/middleware.go:135-147 | the text is the kept lines for some visiting order of all the keys, each key visited once |
| Middleware.HeaderLinesSpec | pkg/middleware.go:135-147 | for any visiting order: one line per kept key, each kept key's "key: value" line present, and no line whose trimmed key is Authorization, Cookie, Set-Cookie or blank |
| Middleware.KeptLinesMembers | pkg/middleware.go:137-145 | the lines are exactly the "key: value" lines of the visited keys that are not redacted |
| Middleware.KeptLinesCount | pkg/middleware.go:137-145 | visiting distinct keys writes as many lines as there are kept keys |
| Middleware.AllRedactedIsEmpty | pkg/middleware.go:141-143 | a header of only credential or blank keys renders as nothing |
| Middleware.HeaderLogged | pkg/middleware.go:111-116 | after the outer trimming, the header text still holds every kept key and its trimmed, "; "-joined values |
| Middleware.TrimSpaceKeeps | pkg/middleware.go:112 | trimming cannot cut into a piece with no white space at either end |
| Middleware.QueryMarkIff | pkg/middleware.go:106-110 | the request line has a "?" exactly when the raw query is non-empty, given a method and a path without one |
| Middleware.RequestHeadContains | pkg/middleware.go:106-110 | the request line holds the method, the path and the raw query |
| Middleware.ResponseHeadContains | pkg/middleware.go:113 | the status line holds the protocol, the decimal code and the status text |
| Middleware.LayoutContains | pkg/middleware.go:121-129 | each of the six parts occurs in the assembled message |
| Middleware.SummaryContains | pkg/middleware.go:105-132 | the message holds the method, path, raw query, protocol, code, status text, both trimmed header texts and both trimmed bodies |
| Middleware.ExchangeLogged | pkg/middleware.go:105-147 | for any visiting orders, the logged message also holds the trimmed key and values of every kept request and response header |
| Middleware.Interceptor.constructor | pkg/middleware.go:64-81 | empty copies, status code 0, and the whole request body still unread |
| Middleware.Interceptor.ReadBody | pkg/middleware.go:72-78 | what the handler reads from the body is also appended to the payload; payload plus unread stays the whole body |
| Middleware.Interceptor.Write | pkg/middleware.go:93-96 | the copy grows by the bytes, then the wrapped writer gets them; the copy stays the concatenation of all writes; the result is the wrapped writer's |
| Middleware.Interceptor.WriteHeader | pkg/middleware.go:99-102 | the code becomes the last one passed, and the wrapped writer is sent it |
| Middleware.Interceptor.Bytes | pkg/middleware.go:105-132 | the message is the layout of the request line, trimmed request headers, trimmed payload, status line, trimmed response headers and trimmed response, for some header iteration orders |
| Middleware.PayloadHandler.LogExchange | pkg/middleware.go:28-40 | after the wrapped handler, the exchange's message is dispatched through the logger at the handler's level |
| Middleware.NewHttpPayloadHandler | pkg/middleware.go:21-24 | a nil logger gives "logger is nil" and no handler; otherwise a handler on that logger and level, without error |

## Left out

- Concurrency is not modelled: locks, the goroutines of `WriteLog` and of the middleware, and `sync.WaitGroup`. Writer calls are sequential, in loop order. In the source the goroutines append to a shared error slice without a lock; errors that such a race can lose are not modelled.
- UUID generation is not modelled. `Hook` takes the fresh id as a parameter, and uniqueness is a lemma hypothesis (`!IdInUse`).
- `Fatal` and `Fatalf` (a panic after logging) are not modelled, nor are `TelegramHandler` (network), `PrintHandler` (console output) and the console `println` of errors in `Print` and the middleware.
- `Printf`/`Print` formatting (`fmt.Sprintf`, `fmt.Sprint`) is not modelled: the formatted text is a parameter.
- Logging.Logger.Unhook: requires a non-empty hook list. On an empty list the source panics (`make` with capacity -1).
- Stack-trace extraction (`ExtractMethodTrace`) is not modelled: the method trace and the stack trace are given to the record. `record.Flush` is not modelled either (it goes through closers.go).
- json.go, error.go, closers.go and terminal.go are not part of this model.
- Handlers.VerifyFiles: file names are relative to the folder. `filepath.Glob` returns folder-joined paths, and those sort as the bare names do because they share the folder prefix (`Order.BelowCommonPrefix`).
- `record.StackTrace` and `record.MethodTrace` are modelled as the functions `LogEvents.Record.StackTrace` and `LogEvents.Record.MethodTrace`, which return the traces fixed at creation. They carry no contract of their own.
- File I/O is a folder map. Write and close on an opened file always succeed, and `filepath.Glob` never fails. Only opening and removing can fail, through `Faults`.
- Handlers.CyclicFilesHandler.Write: the running size is an unbounded integer, so the uint64 overflow of `fileSize` after 2^64 bytes is not modelled.
- Failure oracles fix one outcome per writer for one `WriteLog` (and per file name for one handler write). A writer reached twice in one dispatch, for instance one writer hooked twice under the same level, fails or succeeds on both calls alike; a writer that fails on one call and succeeds on the next is not modelled.
- Handlers.FileNameIsLog: `path.Join`'s cleaning of the file name (pkg/handler.go:93) is not modelled. The folder is keyed by the name as given. A prefix such as "./err", "x/../err" or "/err" is cleaned back into the folder by Go, which lists and prunes those files. The model keeps them apart from "err" and never prunes them. The iff holds for names as given, and is faithful for prefixes without a path separator, such as the "err" of pkg/handler_test.go:46.
- Handlers.FileNameOrder: holds only below 16^8 rotations. Above that, `%0.8X` widens to nine digits and the name order no longer follows the index.
- Handlers.DailyFilesHandler.Write: the clock is a parameter, a `Date`. Dates have years below 10000, so the "2006" layout always gives four digits.
- `TrimSpace` trims ASCII white space only. Unicode white space (which Go's `TrimSpace` also removes) is not modelled.
- The middleware's wrapped `http.ResponseWriter` is a recorder that accepts every write. `http.StatusText` is a parameter. Reading the request body hands out as many bytes as asked for or as remain; short reads are not modelled.
- `NewHttpPayloadHandler`'s HTTP plumbing is not modelled beyond the nil-logger check, the interceptor and the deferred logging step. This covers the `http.HandlerFunc` wrapping, the call of the wrapped handler, `Flush`, and the timing `fmt.Printf`.
- `Middleware.HeaderToString`: Go's map iteration order is unspecified. The result is stated for some order of the keys, and the lemmas hold for every order.
