# Second-screen session dashboard, modelled in Dafny

The server keeps one card per coding session, keyed by the session's working
directory. Hooks register a session, report its status (idle, busy,
waiting, stopped), its summary and linked GitHub issues, and manage a small
task list for it. A sweep runs every minute. It drops completed tasks older
than five minutes, and it drops stopped sessions that have been quiet for a day
and whose tasks are all done. Every change is broadcast to the browsers and
written to disk after a one-second debounce. The browser page polls the list
and sorts the cards so that sessions waiting for input come first. It
escapes text placed in HTML attributes and skips blank task entries.

The project is made of these files:

- `seqs.dfy`: the `Option` type.
  - `Seqs` holds repetition-free sequences, an order-keeping filter, and
    `Array.prototype.find` as an index.
- `session_model.dfy` (module `SessionModel`): the records of `src/types.ts` as
  datatypes, plus the pure rules of the server:
  - the base name of a directory;
  - subdirectory attribution;
  - status priority;
  - the field changes made by register, update and task update;
  - the notify rule;
  - the expiry predicates.
- `session_store.dfy` (module `SessionStore`): the store as a class `Store`.
  - It has a key order (the insertion order of the JavaScript `Map`), a map
    from directory to session, and the pending-save flag.
  - A ghost broadcast counter and a ghost last-saved snapshot record the
    side effects.
  - There is one method per HTTP handler, plus the two purge loops, the
    periodic sweep, the startup cleanup, the save timer and shutdown.
- `dashboard.dfy` (module `Dashboard`): from `public/app.js`:
  - `escapeAttr`;
  - the in-place status sort of `render`;
  - the trim check of `addTask`;
  - the `poll` loop's re-render guard, as a class `Poller`.

The store invariant `Store.Valid()` holds before and after every handler. It says:

- the key order has no repetitions and lists exactly the map's keys;
- no key is the empty string, which every handler rejects as a missing directory;
- every session is stored under its own directory;
- each task has a completion time exactly when it is completed;
- when no save is pending, the last saved snapshot equals the store, up to
  `lastUpdated` stamps. A silent update bumps only that stamp and schedules no
  save.

Where the code and the declared types disagree, the model follows the code:

- The status is any string. The code compares it with `stopped`, which
  `src/types.ts` does not list, and a client may send any other text. The four
  known strings are `Idle`, `Busy`, `Waiting` and `Stopped`; every other string
  is `Other(name)`, whose `name` cannot be one of those four, so each string has
  exactly one status (`Name`, `StatusOf`).
- Tasks carry the optional `completedAt` that the update handler writes.

The proofs are checked with

    dafny verify --resource-limit 2000000 --verification-time-limit 0 --warn-contradictory-assumptions seqs.dfy session_model.dfy session_store.dfy dashboard.dfy

## Model

| member | source | states |
|---|---|---|
| SessionModel.StatusNames | src/server.ts:123 | statuses and their strings correspond one to one, so comparing statuses is comparing the strings the server compares |
| SessionModel.StripTrailingSlashes | src/server.ts:179 | drops only `/` characters from the end, and all of them |
| SessionModel.BaseName | src/server.ts:179 | the directory name of a new card is the longest `/`-free suffix of the path once trailing separators are dropped |
| SessionModel.LastSegmentLongest | src/server.ts:179 | the name is the whole text after the last `/`, once trailing separators are dropped |
| SessionModel.Resolve | src/server.ts:212-228 | an update goes to the exact key if registered; otherwise, when attributed, the target is a registered directory that the path lies strictly below |
| SessionModel.ResolveUnresolved | src/server.ts:216-227 | the update is rejected exactly when the path is not a key and lies below no key |
| SessionStore.AttributedParentGiven | src/server.ts:217-220 | in a well-formed store an attributed parent is never empty, so the `if (parentDir)` test holds exactly when a key matched |
| SessionModel.ResolveFirst | src/server.ts:217-219 | the parent chosen is the first matching key in store order, not the longest prefix |
| SessionModel.Priority | src/server.ts:237-238 | stopped is the only status below idle, waiting the only one at the top and busy the only one in between; unknown strings count as idle |
| SessionModel.Arbitrate | src/server.ts:235-244 | an exact update takes the new status; a routed one changes it only when the new status has strictly higher priority (stopped -1, idle 0, busy 1, waiting 2, others 0) |
| SessionModel.ArbitrateAllReachesMax | src/server.ts:235-244 | after any sequence of routed updates the priority equals the highest priority seen, so routed updates never lower urgency |
| SessionModel.NewTask | src/server.ts:289 | a new task is incomplete and has no completion time |
| SessionModel.TaskUpdated | src/server.ts:324-328 | text replaced only when given; `completed` set when given, with `completedAt` set exactly when it becomes true and cleared when false; the id is kept |
| SessionModel.FirstTask | src/server.ts:318 | the index of the first task with the id, or the length when there is none |
| SessionModel.Incomplete | src/server.ts:165 | keeps exactly the tasks that are not completed |
| SessionModel.WithoutTask | src/server.ts:350 | keeps exactly the tasks whose id differs |
| SessionModel.Unexpired | src/server.ts:110-112 | keeps a task iff it is not completed, has no completion time, or was completed after the cutoff |
| SessionModel.TaskFiltersKeepOrder | src/server.ts:110-112 | the three task filters keep the surviving tasks in their original order |
| SessionModel.UnexpiredShrinks | src/server.ts:109-113 | the task list shrinks exactly when some task has expired, and is unchanged otherwise |
| SessionModel.FiltersKeepStamped | src/server.ts:165 | filtering tasks keeps every task's completion stamp consistent |
| SessionModel.Reregistered | src/server.ts:158-169 | status becomes idle; unless the source is `resume` or `compact`, summary and issues are cleared and only incomplete tasks remain; with those sources they are untouched |
| SessionModel.NewSession | src/server.ts:177-186 | a new session is idle, has an empty summary, no issues and no tasks, is created and updated now, and is named by the base name of its directory |
| SessionModel.Updated | src/server.ts:233-246 | summary and issues replaced only when given; a given status is arbitrated against the old one (an exact update takes it, a routed one only when its priority is strictly higher) and an absent one keeps the old status; tasks and identity kept; `lastUpdated` bumped |
| SessionModel.Notifies | src/server.ts:249 | an update is silent exactly when neither summary nor issues were sent and the final status string equals the one before |
| SessionModel.SilentUpdateOnlyStamps | src/server.ts:248-252 | an update that does not notify changes only `lastUpdated`, and a repeated status with no other field never notifies |
| SessionModel.NotifiedUpdateChanges | src/server.ts:248-258 | an update that notifies with fresh field values changes the session beyond its stamp |
| SessionModel.SessionExpired | src/server.ts:122-126 | a session expires exactly when its status string is `stopped`, its last update is strictly before the cutoff and every task is completed |
| SessionModel.AllCompleted | src/server.ts:125 | `tasks.every(t => t.completed)` as a recursion over the list; its meaning is stated by `AllCompletedIff` |
| SessionModel.AllCompletedIff | src/server.ts:125 | the recursive "every task completed" check means every task is completed |
| SessionModel.SubdirectoryScenario | src/server.ts:212-244 | "/a/sub" is attributed to "/a"; busy raises it, a later routed idle is ignored, and an exact idle lowers it |
| SessionModel.ExpiryBoundaries | src/server.ts:102-127 | a task completed 5 min + 1 s ago is purged and one completed 4 min ago is kept; a stopped session a day + 1 s old goes exactly when all its tasks are completed |
| SessionStore.Values | src/server.ts:144-146 | the listed sessions are the stored ones, in key order |
| SessionStore.RemoveKeyMembers | src/server.ts:269 | deleting a key removes exactly that key and keeps the order free of repetitions |
| SessionStore.RemoveKeyAt | src/server.ts:269 | deleting a key leaves the remaining keys in their order |
| SessionStore.SurvivorsAt | src/server.ts:118-133 | a key survives the session purge iff it is not a stored, expired session |
| SessionStore.SurvivorsDistinct | src/server.ts:118-133 | the surviving key order has no repetitions |
| SessionStore.PurgeTasksOfAt | src/server.ts:105-116 | after the task purge over a key list, each listed session holds only its unexpired tasks and the others are untouched |
| SessionStore.PurgeTasksOfWhole | src/server.ts:105-116 | the purge over all keys equals purging every session of the map |
| SessionStore.PurgeTasksOfNoop | src/server.ts:105-116 | when no task has expired the task purge changes nothing |
| SessionStore.AnyExpiredTaskIff | src/server.ts:107-115 | the task purge reports a change iff some session held an expired task |
| SessionStore.DropExpiredAt | src/server.ts:118-133 | a session is deleted iff it is listed and expired (stopped, quiet since before the cutoff, all tasks completed); the kept ones are unchanged |
| SessionStore.AnySessionExpiredIff | src/server.ts:120-132 | the session purge reports a change iff some listed session had expired |
| SessionStore.DropExpiredNoop | src/server.ts:118-133 | when no session has expired the session purge changes neither the map nor the order |
| SessionStore.PurgeTasksKeepsWellFormed | src/server.ts:105-116 | the task purge keeps the store invariant |
| SessionStore.PurgeSessionsKeepsWellFormed | src/server.ts:118-133 | the session purge keeps the store invariant, with the surviving keys in their old order |
| SessionStore.PurgeTasksLoop | src/server.ts:105-116 | the loop over the sessions computes the task purge and sets `changed` iff a list shrank |
| SessionStore.PurgeSessionsLoop | src/server.ts:118-133 | the loop that deletes while iterating computes the surviving order, the surviving map and whether anything was deleted |
| SessionStore.Store.constructor | src/server.ts:33 | the store starts empty, with no save pending |
| SessionStore.Store.ScheduleSave | src/server.ts:66-72 | after scheduling, exactly one save is pending |
| SessionStore.Store.SaveSessions | src/server.ts:56-64 | a save records the current key order and sessions as the last saved snapshot |
| SessionStore.Store.SaveTimerFires | src/server.ts:68-71 | the pending save writes the current store and clears the timer |
| SessionStore.Store.Shutdown | src/server.ts:74-82 | shutdown writes the store only when a save is pending; afterwards the saved snapshot matches the store |
| SessionStore.Store.List | src/server.ts:144-146 | the list holds every stored session in insertion order |
| SessionStore.Store.Commit | src/server.ts:246-258 | a session write that broadcasts and schedules a save, or a silent stamp-only write that keeps the saved snapshot in sync |
| SessionStore.Store.Register | src/server.ts:149-192 | 400 with no change without a directory; 200 re-registers an existing key in place; 201 appends a new idle session with empty fields at the end of the order; every other session is unchanged; every success broadcasts and schedules a save |
| SessionStore.Store.Update | src/server.ts:195-259 | 400 without a directory; 404 with no change when no key matches; otherwise the resolved session is updated and the body is the new session; it broadcasts and saves iff the update notifies |
| SessionStore.Store.Remove | src/server.ts:262-273 | 400 without a directory; otherwise 204, the key leaves both order and map (absent keys included), with a broadcast and a save |
| SessionStore.Store.AddTask | src/server.ts:276-296 | 400 without directory or text; 404 with no change for an unknown exact key; 201 appends the new task at the end and bumps `lastUpdated` |
| SessionStore.Store.UpdateTask | src/server.ts:298-334 | 400/404 with no change for missing fields, unknown session or unknown task id; 200 updates the first task with the id in place |
| SessionStore.Store.DeleteTask | src/server.ts:336-356 | 400/404 with no change; 204 removes every task with the id and keeps the rest in order |
| SessionStore.Store.PurgeExpiredTasks | src/server.ts:105-116 | the sessions become the task purge of the old ones; the result says whether any task was dropped |
| SessionStore.Store.PurgeExpiredSessions | src/server.ts:118-133 | order and map lose exactly the expired sessions; the result says whether any was dropped |
| SessionStore.Store.Sweep | src/server.ts:371-381 | tasks are purged, then sessions; broadcast and save happen once iff either purge changed something, and otherwise nothing changes |
| SessionStore.Store.StartupCleanup | src/server.ts:362-369 | the same two purges on the loaded data; the store is written at once iff something changed |
| Dashboard.EscapeAttrSafe | public/app.js:203-205 | the escaped text contains no `"`, `'`, `<` or `>` |
| Dashboard.EscapeAttr | public/app.js:203-205 | text with none of the five special characters is returned unchanged |
| Dashboard.EscapeAttrPerChar | public/app.js:204 | because `&` is replaced first, the five passes equal the per-character entity map |
| Dashboard.EscapeAttrConcat | public/app.js:204 | escaping a concatenation escapes each part |
| Dashboard.EscapeAttrChar | public/app.js:204 | a single character becomes exactly its entity; later passes do not rewrite earlier entities |
| Dashboard.UnescapeEscapeAttr | public/app.js:204 | every `&` in the output starts one of the five entities, and decoding the output gives back the input |
| Dashboard.EscapeAttrUnescape | public/app.js:204 | every text of that shape is the escaping of its decoding |
| Dashboard.Rank | public/app.js:37-38 | waiting ranks 0, busy 1, idle 2, and every other status 3 |
| Dashboard.SortByStatus | public/app.js:37-38 | after the sort, waiting cards precede busy ones, busy precede idle, and idle precede every other status; the array is a permutation of the input |
| Dashboard.InsertLast | public/app.js:38 | one insertion step extends the sorted prefix by one card and keeps the same cards |
| Dashboard.StepsSortedIsSorted | public/app.js:38 | order between neighbours gives order between all pairs |
| Dashboard.Trim | public/app.js:175 | the trimmed text is no longer than the input and has no white space at either end |
| Dashboard.TrimStartDropsSpace | public/app.js:175 | what is dropped at the front is white space |
| Dashboard.TrimEndDropsSpace | public/app.js:175 | what is dropped at the back is white space |
| Dashboard.TrimSpec | public/app.js:175 | `trim` keeps the stretch from the first to the last non-space character; it is empty exactly when the input is all white space |
| Dashboard.TrimEmptyIff | public/app.js:175-176 | the trimmed text is empty exactly when the input is all white space |
| Dashboard.TextIsInInput | public/app.js:175 | the trimmed text starts at some position of the input |
| Dashboard.TrimTwice | public/app.js:175 | trimming twice is trimming once |
| Dashboard.TextToSend | public/app.js:175-176 | nothing is sent iff the input is all white space; otherwise the text sent is exactly the trimmed input, a non-empty stretch of it with no white space at either end |
| Dashboard.Poller.constructor | public/app.js:4 | no data has been rendered yet |
| Dashboard.Poller.Render | public/app.js:24-42 | the shown cards are the fetched array after the in-place sort: sorted by status and a permutation of what was fetched |
| Dashboard.Poller.Poll | public/app.js:186-195 | a failed fetch or unchanged data leaves the state and the fetched array alone; otherwise the new serialization is remembered and the cards shown are the fetched array after the in-place sort: sorted by status and a permutation of what was fetched |

## Left out

- File persistence is not modelled: `loadSessions`, the JSON file, the temp file and its rename. Saving is a ghost snapshot of the store. The constructor starts empty instead of loading, and a failed write is not modelled.
- WebSocket fan-out and the connection handshake: `broadcast` is a ghost counter.
- Express wiring, body parsing and logging are left out. A request field is an `Option`, and `Given` models the `!directory` falsiness test (absent or empty). Non-string JSON values in those fields are not modelled.
- Timers are left out. The one-second debounce is the `savePending` flag, and `SaveTimerFires` is its firing. The 60-second interval is a call of `Sweep` with the current time. `process.on` and `process.exit` are not modelled.
- Clock and ids are parameters. Times are integer milliseconds, and the ISO-8601 formatting and `Date` parsing are not modelled; neither is an unparsable date, which compares as NaN. `generateId` is random, so the fresh id is a parameter, and id collisions are not excluded.
- SessionStore.Store.StartupCleanup: requires the store invariant, under which every completed task carries `completedAt`. Loaded data may hold completed tasks without it; the task purge keeps those (`!t.completedAt` at src/server.ts:111), and the model does not cover such data.
- SessionStore.Store.Sweep: requires the same invariant, so a completed task without `completedAt` that came from the data file is outside the model as well.
- SessionModel.Unexpired: treats `completedAt` as present or absent. It does not model the empty-string timestamp that `!t.completedAt` would also skip.
- Object identity is not modelled. Sessions and tasks are values, so the response bodies are snapshots of the stored record rather than the shared object.
- The purge loops compute the new map from the old one and then assign it. The source instead mutates the session objects while it iterates over the map. The visible result is the same, but the model does not capture that the objects are aliased.
- SessionModel.Arbitrate: does not model status strings that name `Object.prototype` members (such as `constructor`). For those, `priority[status]` returns a function instead of `undefined`, which makes the comparison NaN. Every other unknown status has priority 0.
- Dashboard.SortByStatus: does not model those status strings either. For them `order[status]` is a function and the comparator returns NaN. Every other unknown status has rank 3.
- Dashboard.SortByStatus: does not state stability. `Array.prototype.sort` is stable since ECMAScript 2019, and the insertion sort by adjacent swaps is stable as well, but its contract promises only sortedness by rank and the permutation.
- `render`'s empty-state branch is not modelled; there, sorting an empty array changes nothing. The DOM is not modelled either: `cardHTML`, `escapeHTML`, `attachCardListeners` and `setConnected`.
- `fetchSessions` and `JSON.stringify` are the caller's inputs to `Poller.Poll`: the fetched array (or `None` when the fetch failed) and its serialization.
- `addTask`'s clearing of the input box, the POST and the follow-up poll are not modelled. `TextToSend` models only the decision and the text sent.
- JavaScript strings are UTF-16 code units, while `IsJsSpace` checks code points. Surrogate pairs are not modelled.
