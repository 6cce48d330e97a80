/** The values the dashboard server stores (src/types.ts, extended with the
    `stopped` status and the task's completion time that src/server.ts relies on),
    and the pure rules its request handlers apply to one session: attribution of a
    subdirectory to a registered parent, status arbitration, re-registration,
    task edits, expiry and the "did anything change?" decision.
    Times are milliseconds since the epoch. */
module SessionModel {
  import opened Wrappers
  import opened Seqs

  /** A completed task is purged this long after it was completed. */
  const TASK_TTL_MS: int := 5 * 60 * 1000
  /** A stopped session is purged this long after its last update. */
  const SESSION_ARCHIVE_TTL_MS: int := 24 * 60 * 60 * 1000

  datatype Issue = Issue(number: int, url: Option<string>)

  datatype Task = Task(id: string, text: string, completed: bool, completedAt: Option<int>)

  /** A status string other than the four the server knows. */
  type OtherName = n: string | n != "idle" && n != "busy" && n != "waiting" && n != "stopped"
    witness ""

  /** A session status. The server keeps it as a string; each string has exactly one
      representation here, so comparing statuses is comparing their strings. */
  datatype Status = Idle | Busy | Waiting | Stopped | Other(name: OtherName)

  /** The string a status is sent and stored as. */
  function Name(s: Status): string {
    match s
    case Idle => "idle"
    case Busy => "busy"
    case Waiting => "waiting"
    case Stopped => "stopped"
    case Other(n) => n
  }

  /** The status a request's status string denotes. */
  function StatusOf(name: string): Status {
    if name == "idle" then Idle
    else if name == "busy" then Busy
    else if name == "waiting" then Waiting
    else if name == "stopped" then Stopped
    else Other(name)
  }

  /** Statuses and their strings correspond one to one, so the server's string
      comparisons (`session.status === prevStatus`, `status === 'stopped'`) are
      comparisons of statuses. */
  lemma StatusNames(s: Status, name: string)
    ensures StatusOf(Name(s)) == s
    ensures Name(StatusOf(name)) == name
    ensures Name(s) == name <==> s == StatusOf(name)
  {
  }

  datatype Session = Session(
    directory: string,
    directoryName: string,
    summary: string,
    status: Status,
    githubIssues: seq<Issue>,
    tasks: seq<Task>,
    createdAt: int,
    lastUpdated: int)

  /** JavaScript truthiness of an optional string field of a request body:
      absent and empty both fail the handlers' `!field` checks. */
  predicate Given(field: Option<string>) {
    field.Some? && field.value != ""
  }

  // ---------------------------------------------------------------------------
  // Directory names

  /** `path.basename` for POSIX paths: trailing separators are ignored and the
      last segment is returned. */
  function BaseName(path: string): (r: string)
    ensures '/' !in r
    ensures |r| <= |path|
    ensures var p := StripTrailingSlashes(path);
      |r| <= |p| && r == p[|p| - |r|..] && (|r| < |p| ==> p[|p| - |r| - 1] == '/')
  {
    var p := StripTrailingSlashes(path);
    LastSegmentLongest(p);
    LastSegment(p)
  }

  function StripTrailingSlashes(path: string): (r: string)
    ensures |r| <= |path| && r == path[..|r|]
    ensures r == [] || r[|r| - 1] != '/'
    ensures forall k :: |r| <= k < |path| ==> path[k] == '/'
  {
    if path != [] && path[|path| - 1] == '/' then StripTrailingSlashes(path[..|path| - 1]) else path
  }

  /** The longest suffix of `path` without a separator. */
  function LastSegment(path: string): (r: string)
    ensures '/' !in r
    ensures |r| <= |path| && r == path[|path| - |r|..]
  {
    if path == [] || path[|path| - 1] == '/' then []
    else LastSegment(path[..|path| - 1]) + [path[|path| - 1]]
  }

  /** The segment is the longest such suffix: it stops at a separator. */
  lemma {:induction false} LastSegmentLongest(path: string)
    ensures |LastSegment(path)| < |path| ==> path[|path| - |LastSegment(path)| - 1] == '/'
  {
    if path != [] && path[|path| - 1] != '/' {
      var p := path[..|path| - 1];
      LastSegmentLongest(p);
      assert path[..|path| - 1] == p;
    }
  }

  // ---------------------------------------------------------------------------
  // Attribution of an update to a registered session

  /** `dir` lies strictly below the registered directory `parent`. */
  predicate IsChildOf(dir: string, parent: string) {
    parent + "/" <= dir
  }

  /** Where an update for `dir` goes, given the registered directories in store order. */
  datatype Route = Exact | Attributed(parent: string) | Unresolved

  /** An exact key wins; otherwise the first registered directory, in store order,
      that `dir` lies below; otherwise nothing. */
  function Resolve(keys: seq<string>, dir: string): (r: Route)
    ensures r.Exact? <==> dir in keys
    ensures r.Attributed? ==> dir !in keys && r.parent in keys && IsChildOf(dir, r.parent)
  {
    if dir in keys then Exact
    else
      var i := FindIndex((k: string) => IsChildOf(dir, k), keys);
      if i < |keys| then Attributed(keys[i]) else Unresolved
  }

  /** An update is dropped exactly when `dir` is neither registered nor below a
      registered directory. */
  lemma ResolveUnresolved(keys: seq<string>, dir: string)
    ensures Resolve(keys, dir).Unresolved? <==> dir !in keys && forall k :: k in keys ==> !IsChildOf(dir, k)
  {
    if dir !in keys {
      var i := FindIndex((k: string) => IsChildOf(dir, k), keys);
      if i == |keys| {
        forall k | k in keys ensures !IsChildOf(dir, k) {
          var j :| 0 <= j < |keys| && keys[j] == k;
        }
      }
    }
  }

  /** The parent chosen is the first matching key: every key `dir` lies below is
      at or after it in store order. */
  lemma ResolveFirst(keys: seq<string>, dir: string)
    requires Resolve(keys, dir).Attributed?
    ensures forall j :: 0 <= j < |keys| && IsChildOf(dir, keys[j]) ==>
      Resolve(keys, dir).parent in keys[..j + 1]
  {
    var i := FindIndex((k: string) => IsChildOf(dir, k), keys);
    assert forall j :: 0 <= j < |keys| && IsChildOf(dir, keys[j]) ==> keys[..j + 1][i] == keys[i];
  }

  // ---------------------------------------------------------------------------
  // Status arbitration

  /** Urgency of a status; strings the server does not know count as idle. */
  function Priority(s: Status): (r: int)
    ensures -1 <= r <= 2
    ensures r == -1 <==> s == Stopped
    ensures r == 1 <==> s == Busy
    ensures r == 2 <==> s == Waiting
  {
    match s
    case Stopped => -1
    case Idle => 0
    case Busy => 1
    case Waiting => 2
    case Other(_) => 0
  }

  /** The status a session ends up with when `incoming` arrives: an exact update
      always overwrites, an attributed one only raises the priority. */
  function Arbitrate(current: Status, incoming: Status, routed: bool): (r: Status)
    ensures r == current || r == incoming
    ensures !routed ==> r == incoming
    ensures routed ==> Priority(r) >= Priority(current)
    ensures routed && Priority(incoming) > Priority(current) ==> r == incoming
    ensures routed && Priority(incoming) <= Priority(current) ==> r == current
  {
    if !routed || Priority(incoming) > Priority(current) then incoming else current
  }

  /** The status after a series of attributed updates, applied in order. */
  function ArbitrateAll(current: Status, incoming: seq<Status>): Status
    decreases |incoming|
  {
    if incoming == [] then current
    else ArbitrateAll(Arbitrate(current, incoming[0], true), incoming[1..])
  }

  function Max(a: int, b: int): int { if a < b then b else a }

  /** The highest priority among `current` and the statuses in `incoming`. */
  function MaxPriority(current: Status, incoming: seq<Status>): int {
    if incoming == [] then Priority(current)
    else Max(Priority(incoming[|incoming| - 1]), MaxPriority(current, incoming[..|incoming| - 1]))
  }

  /** However attributed updates are interleaved, the session ends at the highest
      priority it has seen: attributed updates never lower urgency. */
  lemma {:induction false} ArbitrateAllReachesMax(current: Status, incoming: seq<Status>)
    ensures Priority(ArbitrateAll(current, incoming)) == MaxPriority(current, incoming)
    ensures Priority(ArbitrateAll(current, incoming)) >= Priority(current)
    decreases |incoming|
  {
    if incoming != [] {
      var next := Arbitrate(current, incoming[0], true);
      ArbitrateAllReachesMax(next, incoming[1..]);
      MaxPriorityHead(current, incoming);
    }
  }

  /** Folding the first status into the starting point does not change the maximum. */
  lemma {:induction false} MaxPriorityHead(current: Status, incoming: seq<Status>)
    requires incoming != []
    ensures MaxPriority(Arbitrate(current, incoming[0], true), incoming[1..]) == MaxPriority(current, incoming)
  {
    var next := Arbitrate(current, incoming[0], true);
    if |incoming| == 1 {
      assert incoming[..0] == [];
    } else {
      var last := |incoming| - 1;
      assert incoming[1..][..last - 1] == incoming[..last][1..];
      MaxPriorityHead(current, incoming[..last]);
    }
  }

  // ---------------------------------------------------------------------------
  // Tasks

  /** The completion time is recorded exactly for completed tasks. */
  predicate Stamped(t: Task) {
    t.completed <==> t.completedAt.Some?
  }

  predicate AllStamped(tasks: seq<Task>) {
    forall t :: t in tasks ==> Stamped(t)
  }

  /** The task the add handler creates. */
  function NewTask(id: string, text: string): (t: Task)
    ensures !t.completed && Stamped(t)
  {
    Task(id, text, false, None)
  }

  /** The task after an edit: `text` replaces the text when given; `completed`,
      when given, sets the flag and stamps or clears the completion time. */
  function TaskUpdated(t: Task, text: Option<string>, completed: Option<bool>, now: int): (r: Task)
    ensures r.id == t.id
    ensures r.text == (if text.Some? then text.value else t.text)
    ensures completed.None? ==> r.completed == t.completed && r.completedAt == t.completedAt
    ensures completed.Some? ==> r.completed == completed.value
    ensures completed.Some? ==> (r.completedAt == Some(now) <==> r.completed)
    ensures completed.Some? ==> (r.completedAt == None <==> !r.completed)
    ensures Stamped(t) ==> Stamped(r)
  {
    var t1 := if text.Some? then t.(text := text.value) else t;
    if completed.Some? then
      t1.(completed := completed.value, completedAt := if completed.value then Some(now) else None)
    else t1
  }

  /** Position of the first task with this id (`Array.prototype.find`), or the length. */
  function FirstTask(tasks: seq<Task>, id: string): (i: nat)
    ensures i <= |tasks|
    ensures i < |tasks| ==> tasks[i].id == id
    ensures forall j :: 0 <= j < i ==> tasks[j].id != id
  {
    FindIndex((t: Task) => t.id == id, tasks)
  }

  /** The tasks that survive a non-continuation re-registration. */
  function Incomplete(tasks: seq<Task>): (r: seq<Task>)
    ensures forall t :: t in r <==> t in tasks && !t.completed
  {
    Filter((t: Task) => !t.completed, tasks)
  }

  /** The tasks left after deleting every task with this id. */
  function WithoutTask(tasks: seq<Task>, id: string): (r: seq<Task>)
    ensures forall t :: t in r <==> t in tasks && t.id != id
  {
    Filter((t: Task) => t.id != id, tasks)
  }

  /** A completed task whose completion time is at or before `cutoff`. */
  predicate Expired(t: Task, cutoff: int) {
    t.completed && t.completedAt.Some? && t.completedAt.value <= cutoff
  }

  /** The tasks the expiry sweep keeps. */
  function Unexpired(tasks: seq<Task>, cutoff: int): (r: seq<Task>)
    ensures forall t :: t in r <==> t in tasks && !Expired(t, cutoff)
  {
    Filter((t: Task) => !Expired(t, cutoff), tasks)
  }

  /** Removal keeps the survivors in their original order, and it shortens the
      list exactly when some task matched; otherwise the list is untouched. */
  lemma TaskFiltersKeepOrder(a: seq<Task>, b: seq<Task>, id: string, cutoff: int)
    ensures Incomplete(a + b) == Incomplete(a) + Incomplete(b)
    ensures WithoutTask(a + b, id) == WithoutTask(a, id) + WithoutTask(b, id)
    ensures Unexpired(a + b, cutoff) == Unexpired(a, cutoff) + Unexpired(b, cutoff)
  {
    FilterConcat((t: Task) => !t.completed, a, b);
    FilterConcat((t: Task) => t.id != id, a, b);
    FilterConcat((t: Task) => !Expired(t, cutoff), a, b);
  }

  /** The task purge removes something exactly when some task has expired, and
      leaves the list as it was otherwise. */
  lemma UnexpiredShrinks(tasks: seq<Task>, cutoff: int)
    ensures |Unexpired(tasks, cutoff)| < |tasks| <==> exists i :: 0 <= i < |tasks| && Expired(tasks[i], cutoff)
    ensures |Unexpired(tasks, cutoff)| == |tasks| ==> Unexpired(tasks, cutoff) == tasks
  {
    FilterShrinks((t: Task) => !Expired(t, cutoff), tasks);
  }

  /** Filters keep the completion-time invariant. */
  lemma FiltersKeepStamped(tasks: seq<Task>, id: string, cutoff: int)
    requires AllStamped(tasks)
    ensures AllStamped(Incomplete(tasks))
    ensures AllStamped(WithoutTask(tasks, id))
    ensures AllStamped(Unexpired(tasks, cutoff))
  {
  }

  // ---------------------------------------------------------------------------
  // Sessions

  /** A freshly registered session. */
  function NewSession(dir: string, now: int): (r: Session)
    ensures r.directory == dir && r.status == Idle && r.createdAt == now && r.lastUpdated == now
    ensures r.summary == "" && r.githubIssues == [] && r.tasks == []
    ensures r.directoryName == BaseName(dir) && '/' !in r.directoryName
  {
    Session(dir, BaseName(dir), "", Idle, [], [], now, now)
  }

  /** Registration sources that continue an earlier conversation. */
  predicate IsContinuation(source: Option<string>) {
    source == Some("resume") || source == Some("compact")
  }

  /** An existing session registered again: it becomes idle; unless the source is a
      continuation, summary and issues are cleared and only incomplete tasks remain. */
  function Reregistered(s: Session, source: Option<string>, now: int): (r: Session)
    ensures r.status == Idle && r.lastUpdated == now
    ensures r.directory == s.directory && r.directoryName == s.directoryName && r.createdAt == s.createdAt
    ensures IsContinuation(source) ==>
      r.summary == s.summary && r.githubIssues == s.githubIssues && r.tasks == s.tasks
    ensures !IsContinuation(source) ==> r.summary == "" && r.githubIssues == []
    ensures !IsContinuation(source) ==> r.tasks == Incomplete(s.tasks)
    ensures !IsContinuation(source) ==> forall t :: t in r.tasks <==> t in s.tasks && !t.completed
  {
    var s1 := s.(status := Idle);
    var s2 := if IsContinuation(source) then s1
              else s1.(summary := "", githubIssues := [], tasks := Incomplete(s1.tasks));
    s2.(lastUpdated := now)
  }

  /** The session after an update: summary and issues are replaced when given, the
      status goes through arbitration, and `lastUpdated` is always bumped. */
  function Updated(s: Session, summary: Option<string>, status: Option<Status>,
                   issues: Option<seq<Issue>>, routed: bool, now: int): (r: Session)
    ensures r.directory == s.directory && r.directoryName == s.directoryName
    ensures r.tasks == s.tasks && r.createdAt == s.createdAt && r.lastUpdated == now
    ensures r.summary == (if summary.Some? then summary.value else s.summary)
    ensures r.githubIssues == (if issues.Some? then issues.value else s.githubIssues)
    ensures status.None? ==> r.status == s.status
    ensures status.Some? && !routed ==> r.status == status.value
    ensures routed ==> Priority(r.status) >= Priority(s.status)
    ensures status.Some? ==> r.status == s.status || r.status == status.value
    ensures status.Some? ==> r.status == Arbitrate(s.status, status.value, routed)
  {
    var s1 := if summary.Some? then s.(summary := summary.value) else s;
    var s2 := if status.Some? then s1.(status := Arbitrate(s1.status, status.value, routed)) else s1;
    var s3 := if issues.Some? then s2.(githubIssues := issues.value) else s2;
    s3.(lastUpdated := now)
  }

  /** Whether an update is announced (broadcast and saved): a summary or issues were
      sent, or the status actually moved. */
  predicate Notifies(summary: Option<string>, issues: Option<seq<Issue>>, prev: Status, final: Status): (r: bool)
    ensures !r <==> summary.None? && issues.None? && Name(final) == Name(prev)
  {
    StatusNames(final, Name(prev));
    summary.Some? || issues.Some? || final != prev
  }

  /** A silent update changes nothing but the session's `lastUpdated` stamp, and a
      repeated status with no other field (busy after busy) is always silent. */
  lemma SilentUpdateOnlyStamps(s: Session, summary: Option<string>, status: Option<Status>,
                                issues: Option<seq<Issue>>, routed: bool, now: int)
    ensures var r := Updated(s, summary, status, issues, routed, now);
      !Notifies(summary, issues, s.status, r.status) ==> r == s.(lastUpdated := now)
    ensures summary.None? && issues.None? && status == Some(s.status) ==>
      !Notifies(summary, issues, s.status, Updated(s, summary, status, issues, routed, now).status)
  {
  }

  /** An announced update made an observable change, unless it only re-sent a summary
      or issue list equal to the stored one. */
  lemma NotifiedUpdateChanges(s: Session, summary: Option<string>, status: Option<Status>,
                              issues: Option<seq<Issue>>, routed: bool, now: int)
    requires summary.None? || summary.value != s.summary
    requires issues.None? || issues.value != s.githubIssues
    ensures var r := Updated(s, summary, status, issues, routed, now);
      Notifies(summary, issues, s.status, r.status) ==> r.(lastUpdated := s.lastUpdated) != s
  {
  }

  /** A session the sweep deletes: stopped, not updated since before `cutoff`
      (strictly), and with every task completed. */
  predicate SessionExpired(s: Session, cutoff: int): (r: bool)
    ensures r <==> Name(s.status) == "stopped" && s.lastUpdated < cutoff && forall t :: t in s.tasks ==> t.completed
  {
    StatusNames(s.status, "stopped");
    AllCompletedIff(s.tasks);
    s.status == Stopped && s.lastUpdated < cutoff && AllCompleted(s.tasks)
  }

  /** `tasks.every(t => t.completed)`. */
  predicate AllCompleted(tasks: seq<Task>) {
    tasks == [] || (tasks[0].completed && AllCompleted(tasks[1..]))
  }

  lemma {:induction false} AllCompletedIff(tasks: seq<Task>)
    ensures AllCompleted(tasks) <==> forall t :: t in tasks ==> t.completed
  {
    if tasks != [] {
      AllCompletedIff(tasks[1..]);
      assert forall t :: t in tasks <==> t == tasks[0] || t in tasks[1..];
    }
  }

  /** The session after the task purge. */
  function PurgedTasks(s: Session, cutoff: int): Session {
    s.(tasks := Unexpired(s.tasks, cutoff))
  }

  /** The worked scenario: "/a" registered, an update for "/a/sub" reaches "/a";
      busy raises it, a later idle for the subdirectory is dropped, while an exact
      idle for "/a" lowers it. */
  lemma SubdirectoryScenario(now: int)
    ensures Resolve(["/a"], "/a/sub") == Attributed("/a")
    ensures var s0 := NewSession("/a", now);
            var s1 := Updated(s0, None, Some(Busy), None, true, now);
            var s2 := Updated(s1, None, Some(Idle), None, true, now);
            var s3 := Updated(s2, None, Some(Idle), None, false, now);
            s1.status == Busy && s2.status == Busy && s3.status == Idle &&
            Notifies(None, None, s0.status, s1.status) && !Notifies(None, None, s1.status, s2.status)
  {
    assert "/a" + "/" <= "/a/sub";
    assert "/a/sub" !in ["/a"];
  }

  /** The expiry boundaries: a task completed five minutes and one second ago is
      purged, one completed four minutes ago stays; a stopped, fully completed
      session last updated a day and a second ago is purged, the same session with an
      open task is kept. */
  lemma ExpiryBoundaries(now: int, s: Session)
    requires s.status == Stopped && s.lastUpdated == now - SESSION_ARCHIVE_TTL_MS - 1000
    ensures var old5 := Task("a", "x", true, Some(now - TASK_TTL_MS - 1000));
            var new4 := Task("b", "y", true, Some(now - 4 * 60 * 1000));
            Unexpired([old5, new4], now - TASK_TTL_MS) == [new4]
    ensures (forall t :: t in s.tasks ==> t.completed) ==> SessionExpired(s, now - SESSION_ARCHIVE_TTL_MS)
    ensures (exists t :: t in s.tasks && !t.completed) ==> !SessionExpired(s, now - SESSION_ARCHIVE_TTL_MS)
  {
    AllCompletedIff(s.tasks);
    var old5 := Task("a", "x", true, Some(now - TASK_TTL_MS - 1000));
    var new4 := Task("b", "y", true, Some(now - 4 * 60 * 1000));
    var keep := (t: Task) => !Expired(t, now - TASK_TTL_MS);
    assert [old5, new4][1..] == [new4];
    assert [new4][1..] == [];
    assert Filter(keep, [new4]) == [new4] + Filter(keep, []);
    assert Filter(keep, [old5, new4]) == Filter(keep, [new4]);
  }
}
