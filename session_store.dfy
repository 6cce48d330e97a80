/** The server's in-memory session store (src/server.ts): a JavaScript `Map` from
    directory to session, kept as the key order (`Map` iterates in insertion order
    and `set` on an existing key keeps its place) plus a map from key to session.
    Each HTTP handler, the two purges, the periodic and start-up sweeps and the
    debounced save are methods that change the store in place and report the status
    code the handler answers with. Broadcasting the session list to every dashboard
    is counted in the ghost field `broadcasts`; the pending debounced save is
    `savePending`; the last snapshot written to disk is kept in the ghost fields `persistedOrder`
    and `persisted`. */
module SessionStore {
  import opened Wrappers
  import opened Seqs
  import opened SessionModel

  /** A session with its `lastUpdated` stamp erased. */
  function Unstamped(s: Session): Session {
    s.(lastUpdated := 0)
  }

  /** Two stores with the same keys whose sessions differ at most in their
      `lastUpdated` stamps. */
  predicate SameModuloStamps(a: map<string, Session>, b: map<string, Session>) {
    && a.Keys == b.Keys
    && forall k :: k in a ==> Unstamped(a[k]) == Unstamped(b[k])
  }

  /** The sessions in key order, as `Array.from(sessions.values())` lists them. */
  function Values(keys: seq<string>, m: map<string, Session>): (r: seq<Session>)
    requires forall k :: k in keys ==> k in m
    ensures |r| == |keys|
    ensures forall i :: 0 <= i < |keys| ==> r[i] == m[keys[i]]
  {
    seq(|keys|, i requires 0 <= i < |keys| => m[keys[i]])
  }

  /** The key order after `Map.delete(k)`. */
  function RemoveKey(keys: seq<string>, k: string): (r: seq<string>)
    ensures |r| <= |keys|
  {
    if keys == [] then []
    else
      var last := keys[|keys| - 1];
      RemoveKey(keys[..|keys| - 1], k) + (if last == k then [] else [last])
  }

  /** `Map.delete(k)` removes `k` and only `k`, and keeps keys unique. */
  lemma {:induction false} RemoveKeyMembers(keys: seq<string>, k: string)
    ensures forall x :: x in RemoveKey(keys, k) <==> x in keys && x != k
    ensures Distinct(keys) ==> Distinct(RemoveKey(keys, k))
  {
    if keys != [] {
      var init, last := keys[..|keys| - 1], keys[|keys| - 1];
      RemoveKeyMembers(init, k);
      assert keys == init + [last];
      if last == k {
        assert RemoveKey(keys, k) == RemoveKey(init, k) + [];
        assert RemoveKey(init, k) + [] == RemoveKey(init, k);
        assert Distinct(keys) ==> Distinct(init);
      } else if Distinct(keys) {
        DistinctAppend(RemoveKey(init, k), last);
      }
    }
  }

  /** The keys whose sessions survive the session purge, in key order. */
  function Survivors(keys: seq<string>, m: map<string, Session>, cutoff: int): (r: seq<string>)
    ensures |r| <= |keys|
  {
    if keys == [] then []
    else
      var k := keys[|keys| - 1];
      Survivors(keys[..|keys| - 1], m, cutoff) + (if k in m && SessionExpired(m[k], cutoff) then [] else [k])
  }

  /** Extending the keys by one extends the surviving keys by that key, unless its
      session has expired. */
  lemma SurvivorsSnoc(keys: seq<string>, k: string, m: map<string, Session>, cutoff: int)
    ensures Survivors(keys + [k], m, cutoff) ==
      Survivors(keys, m, cutoff) + (if k in m && SessionExpired(m[k], cutoff) then [] else [k])
  {
    assert (keys + [k])[..|keys|] == keys;
  }

  /** A key survives the session purge over `keys` exactly when it is one of
      `keys` and its session, if any, has not expired. */
  lemma {:induction false} SurvivorsAt(keys: seq<string>, m: map<string, Session>, cutoff: int, k: string)
    ensures k in Survivors(keys, m, cutoff) <==> k in keys && !(k in m && SessionExpired(m[k], cutoff))
  {
    if keys != [] {
      var init := keys[..|keys| - 1];
      SurvivorsAt(init, m, cutoff, k);
      assert keys == init + [keys[|keys| - 1]];
    }
  }

  /** The surviving keys are free of repetitions when the keys were. */
  lemma {:induction false} SurvivorsDistinct(keys: seq<string>, m: map<string, Session>, cutoff: int)
    requires Distinct(keys)
    ensures Distinct(Survivors(keys, m, cutoff))
  {
    if keys != [] {
      var init, k := keys[..|keys| - 1], keys[|keys| - 1];
      assert Distinct(init);
      SurvivorsDistinct(init, m, cutoff);
      SurvivorsAt(init, m, cutoff, k);
      if k in m && SessionExpired(m[k], cutoff) {
        assert Survivors(keys, m, cutoff) == Survivors(init, m, cutoff) + [];
        assert Survivors(init, m, cutoff) + [] == Survivors(init, m, cutoff);
      } else {
        DistinctAppend(Survivors(init, m, cutoff), k);
      }
    }
  }

  /** Every session after the task purge. */
  function PurgeAllTasks(m: map<string, Session>, cutoff: int): (r: map<string, Session>)
    ensures r.Keys == m.Keys
    ensures forall k :: k in r ==> r[k] == PurgedTasks(m[k], cutoff)
  {
    map k | k in m :: PurgedTasks(m[k], cutoff)
  }

  /** Some task of the session is past the task TTL. */
  predicate HasExpiredTask(s: Session, cutoff: int) {
    exists i :: 0 <= i < |s.tasks| && Expired(s.tasks[i], cutoff)
  }

  /** The task purge applied, in order, to the sessions stored under `keys`. */
  function PurgeTasksOf(keys: seq<string>, m: map<string, Session>, cutoff: int): (r: map<string, Session>)
    ensures r.Keys == m.Keys
  {
    if keys == [] then m
    else
      var k := keys[|keys| - 1];
      var r := PurgeTasksOf(keys[..|keys| - 1], m, cutoff);
      if k in m then r[k := PurgedTasks(m[k], cutoff)] else r
  }

  /** After purging the sessions under `keys`, exactly those are purged. */
  lemma {:induction false} PurgeTasksOfAt(keys: seq<string>, m: map<string, Session>, cutoff: int, k: string)
    requires k in m
    ensures PurgeTasksOf(keys, m, cutoff)[k] == if k in keys then PurgedTasks(m[k], cutoff) else m[k]
  {
    if keys != [] {
      var init := keys[..|keys| - 1];
      PurgeTasksOfAt(init, m, cutoff, k);
      assert keys == init + [keys[|keys| - 1]];
    }
  }

  /** Deleting a key that does not occur leaves the key order as it is. */
  lemma {:induction false} RemoveKeyAbsent(a: seq<string>, k: string)
    requires k !in a
    ensures RemoveKey(a, k) == a
  {
    if a != [] {
      var init := a[..|a| - 1];
      assert a == init + [a[|a| - 1]];
      RemoveKeyAbsent(init, k);
    }
  }

  /** Deleting a key that occurs once: every other key keeps its place. */
  lemma {:induction false} RemoveKeyAt(a: seq<string>, k: string, b: seq<string>)
    requires k !in a && k !in b
    ensures RemoveKey(a + [k] + b, k) == a + b
  {
    var c := a + [k] + b;
    if b == [] {
      assert c[..|c| - 1] == a;
      RemoveKeyAbsent(a, k);
      assert a + b == a;
    } else {
      var init := b[..|b| - 1];
      assert c[..|c| - 1] == a + [k] + init;
      RemoveKeyAt(a, k, init);
      assert b == init + [b[|b| - 1]];
      assert a + b == (a + init) + [b[|b| - 1]];
    }
  }

  /** Some session stored under `keys` has an expired task. */
  predicate AnyExpiredTask(keys: seq<string>, m: map<string, Session>, cutoff: int) {
    if keys == [] then false
    else
      var k := keys[|keys| - 1];
      AnyExpiredTask(keys[..|keys| - 1], m, cutoff) || (k in m && HasExpiredTask(m[k], cutoff))
  }

  lemma {:induction false} AnyExpiredTaskIff(keys: seq<string>, m: map<string, Session>, cutoff: int)
    ensures AnyExpiredTask(keys, m, cutoff) <==> exists k :: k in keys && k in m && HasExpiredTask(m[k], cutoff)
  {
    if keys != [] {
      var init := keys[..|keys| - 1];
      AnyExpiredTaskIff(init, m, cutoff);
      assert keys == init + [keys[|keys| - 1]];
    }
  }

  /** Purging every key of the store purges each session once. */
  lemma PurgeTasksOfWhole(keys: seq<string>, m: map<string, Session>, cutoff: int)
    requires forall k :: k in m ==> k in keys
    ensures PurgeTasksOf(keys, m, cutoff) == PurgeAllTasks(m, cutoff)
  {
    forall k | k in m
      ensures PurgeTasksOf(keys, m, cutoff)[k] == PurgeAllTasks(m, cutoff)[k]
    {
      PurgeTasksOfAt(keys, m, cutoff, k);
    }
  }

  /** When no session has an expired task, the task purge changes nothing. */
  lemma {:induction false} PurgeTasksOfNoop(keys: seq<string>, m: map<string, Session>, cutoff: int)
    requires !AnyExpiredTask(keys, m, cutoff)
    ensures PurgeTasksOf(keys, m, cutoff) == m
  {
    if keys != [] {
      var k := keys[|keys| - 1];
      PurgeTasksOfNoop(keys[..|keys| - 1], m, cutoff);
      if k in m {
        UnexpiredShrinks(m[k].tasks, cutoff);
        assert PurgedTasks(m[k], cutoff) == m[k];
      }
    }
  }

  /** The session purge applied, in order, to the keys `keys`: each stored session
      that has expired is deleted. */
  function DropExpired(keys: seq<string>, m: map<string, Session>, cutoff: int): (r: map<string, Session>)
    ensures r.Keys <= m.Keys
  {
    if keys == [] then m
    else
      var k := keys[|keys| - 1];
      var r := DropExpired(keys[..|keys| - 1], m, cutoff);
      if k in m && SessionExpired(m[k], cutoff) then r - {k} else r
  }

  /** After the session purge over `keys`, a session is still stored exactly when
      it was not under one of `keys` or has not expired, and it is unchanged. */
  lemma {:induction false} DropExpiredAt(keys: seq<string>, m: map<string, Session>, cutoff: int, k: string)
    ensures k in DropExpired(keys, m, cutoff) <==> k in m && (k !in keys || !SessionExpired(m[k], cutoff))
    ensures k in DropExpired(keys, m, cutoff) ==> DropExpired(keys, m, cutoff)[k] == m[k]
  {
    if keys != [] {
      var init := keys[..|keys| - 1];
      DropExpiredAt(init, m, cutoff, k);
      assert keys == init + [keys[|keys| - 1]];
    }
  }

  /** Some session stored under `keys` has expired. */
  predicate AnySessionExpired(keys: seq<string>, m: map<string, Session>, cutoff: int) {
    if keys == [] then false
    else
      var k := keys[|keys| - 1];
      AnySessionExpired(keys[..|keys| - 1], m, cutoff) || (k in m && SessionExpired(m[k], cutoff))
  }

  lemma {:induction false} AnySessionExpiredIff(keys: seq<string>, m: map<string, Session>, cutoff: int)
    ensures AnySessionExpired(keys, m, cutoff) <==> exists k :: k in keys && k in m && SessionExpired(m[k], cutoff)
  {
    if keys != [] {
      var init := keys[..|keys| - 1];
      AnySessionExpiredIff(init, m, cutoff);
      assert keys == init + [keys[|keys| - 1]];
    }
  }

  /** When no session has expired, the session purge changes nothing. */
  lemma {:induction false} DropExpiredNoop(keys: seq<string>, m: map<string, Session>, cutoff: int)
    requires !AnySessionExpired(keys, m, cutoff)
    ensures DropExpired(keys, m, cutoff) == m
    ensures Survivors(keys, m, cutoff) == keys
  {
    if keys != [] {
      var init := keys[..|keys| - 1];
      DropExpiredNoop(init, m, cutoff);
      assert keys == init + [keys[|keys| - 1]];
    }
  }

  /** The store's shape: keys are unique, key order and map agree, no key is empty
      (every handler rejects an empty directory), each session is stored under its own
      directory, and completion times are recorded exactly for completed tasks. */
  ghost predicate WellFormed(order: seq<string>, m: map<string, Session>) {
    && Distinct(order)
    && (forall k :: k in m <==> k in order)
    && (forall k :: k in m ==> k != "" && m[k].directory == k && AllStamped(m[k].tasks))
  }

  /** In a well-formed store an attributed parent is never the empty string, so the
      handler's `if (parentDir)` test is the same as "some key matched". */
  lemma AttributedParentGiven(order: seq<string>, m: map<string, Session>, dir: string)
    requires WellFormed(order, m)
    ensures Resolve(order, dir).Attributed? ==> Resolve(order, dir).parent != ""
  {
  }

  lemma WellFormedSet(order: seq<string>, m: map<string, Session>, k: string, s: Session)
    requires WellFormed(order, m) && k in m && s.directory == k && AllStamped(s.tasks)
    ensures WellFormed(order, m[k := s])
  {
  }

  lemma WellFormedAdd(order: seq<string>, m: map<string, Session>, k: string, s: Session)
    requires WellFormed(order, m) && k !in m && k != "" && s.directory == k && AllStamped(s.tasks)
    ensures WellFormed(order + [k], m[k := s])
  {
  }

  lemma WellFormedRemove(order: seq<string>, m: map<string, Session>, k: string)
    requires WellFormed(order, m)
    ensures WellFormed(RemoveKey(order, k), m - {k})
  {
    RemoveKeyMembers(order, k);
  }

  /** The task purge keeps the store's shape. */
  lemma PurgeTasksKeepsWellFormed(keys: seq<string>, m: map<string, Session>, cutoff: int)
    requires WellFormed(keys, m)
    ensures WellFormed(keys, PurgeTasksOf(keys, m, cutoff))
  {
    var r := PurgeTasksOf(keys, m, cutoff);
    forall k | k in r
      ensures r[k].directory == k && AllStamped(r[k].tasks)
    {
      PurgeTasksOfAt(keys, m, cutoff, k);
      FiltersKeepStamped(m[k].tasks, "", cutoff);
    }
  }

  /** The session purge keeps the store's shape. */
  lemma PurgeSessionsKeepsWellFormed(keys: seq<string>, m: map<string, Session>, cutoff: int)
    requires WellFormed(keys, m)
    ensures WellFormed(Survivors(keys, m, cutoff), DropExpired(keys, m, cutoff))
  {
    var order, r := Survivors(keys, m, cutoff), DropExpired(keys, m, cutoff);
    SurvivorsDistinct(keys, m, cutoff);
    forall k
      ensures k in r <==> k in order
      ensures k in r ==> r[k] == m[k]
    {
      SurvivorsAt(keys, m, cutoff, k);
      DropExpiredAt(keys, m, cutoff, k);
    }
  }

  /** One step of the task purge: the session under the key at `i` is still as
      loaded, and purging it extends the purge over the keys before it by one key. */
  lemma PurgeTasksStep(keys: seq<string>, m: map<string, Session>, cutoff: int, i: nat)
    requires Distinct(keys) && i < |keys| && keys[i] in m
    ensures keys[i] in m && PurgeTasksOf(keys[..i], m, cutoff)[keys[i]] == m[keys[i]]
    ensures PurgeTasksOf(keys[..i + 1], m, cutoff) ==
      PurgeTasksOf(keys[..i], m, cutoff)[keys[i] := PurgedTasks(m[keys[i]], cutoff)]
    ensures AnyExpiredTask(keys[..i + 1], m, cutoff) ==
      (AnyExpiredTask(keys[..i], m, cutoff) || |Unexpired(m[keys[i]].tasks, cutoff)| < |m[keys[i]].tasks|)
  {
    var dir, done := keys[i], keys[..i];
    DistinctAt(keys, i);
    PurgeTasksOfAt(done, m, cutoff, dir);
    UnexpiredShrinks(m[dir].tasks, cutoff);
    assert keys[..i + 1] == done + [dir];
    assert (done + [dir])[..|done|] == done;
  }

  /** The loop of `purgeExpiredTasks` over a store with key order `keys` and
      sessions `m`: visit the sessions in key order and drop their expired tasks;
      report whether any went. */
  method PurgeTasksLoop(keys: seq<string>, m: map<string, Session>, cutoff: int)
    returns (live: map<string, Session>, changed: bool)
    requires Distinct(keys) && forall j :: 0 <= j < |keys| ==> keys[j] in m
    ensures live == PurgeTasksOf(keys, m, cutoff)
    ensures changed == AnyExpiredTask(keys, m, cutoff)
  {
    live := m;
    changed := false;
    var i := 0;
    while i < |keys|
      invariant 0 <= i <= |keys|
      invariant live == PurgeTasksOf(keys[..i], m, cutoff)
      invariant changed == AnyExpiredTask(keys[..i], m, cutoff)
    {
      var dir := keys[i];
      PurgeTasksStep(keys, m, cutoff, i);
      var session := live[dir];
      var tasks := Unexpired(session.tasks, cutoff);
      if |tasks| < |session.tasks| {
        changed := true;
      }
      live := live[dir := session.(tasks := tasks)];
      i := i + 1;
    }
    assert keys[..i] == keys;
  }

  /** One step of the session purge, on the stored sessions: the session under the
      key at `i` is still stored as loaded, and deleting it when it has expired
      extends the purge over the keys before it by one key. */
  lemma PurgeSessionsStep(keys: seq<string>, m: map<string, Session>, cutoff: int, i: nat)
    requires Distinct(keys) && i < |keys| && keys[i] in m
    ensures keys[i] in DropExpired(keys[..i], m, cutoff)
    ensures DropExpired(keys[..i], m, cutoff)[keys[i]] == m[keys[i]]
    ensures DropExpired(keys[..i + 1], m, cutoff) ==
      if SessionExpired(m[keys[i]], cutoff) then DropExpired(keys[..i], m, cutoff) - {keys[i]}
      else DropExpired(keys[..i], m, cutoff)
    ensures AnySessionExpired(keys[..i + 1], m, cutoff) ==
      (AnySessionExpired(keys[..i], m, cutoff) || SessionExpired(m[keys[i]], cutoff))
  {
    var dir, done := keys[i], keys[..i];
    DistinctAt(keys, i);
    DropExpiredAt(done, m, cutoff, dir);
    assert keys[..i + 1] == done + [dir];
    assert (done + [dir])[..|done|] == done;
  }

  /** One step of the session purge, on the key order: deleting the key at `i`
      when its session has expired extends the purge over the keys before it by
      one key, and leaves the keys after it in place. */
  lemma PurgeSessionsOrderStep(keys: seq<string>, m: map<string, Session>, cutoff: int, i: nat)
    requires Distinct(keys) && i < |keys| && keys[i] in m
    ensures Survivors(keys[..i + 1], m, cutoff) + keys[i + 1..] ==
      if SessionExpired(m[keys[i]], cutoff) then RemoveKey(Survivors(keys[..i], m, cutoff) + keys[i..], keys[i])
      else Survivors(keys[..i], m, cutoff) + keys[i..]
  {
    var dir, done, rest := keys[i], keys[..i], keys[i + 1..];
    DistinctAt(keys, i);
    var kept := Survivors(done, m, cutoff);
    assert keys[..i + 1] == done + [dir];
    SurvivorsSnoc(done, dir, m, cutoff);
    AppendAssoc(kept, [dir], rest);
    if SessionExpired(m[dir], cutoff) {
      SurvivorsAt(done, m, cutoff, dir);
      RemoveKeyAt(kept, dir, rest);
    }
  }

  /** The loop of `purgeExpiredSessions` over a store with key order `keys` and
      sessions `m`: visit the keys in order and delete each session that has
      expired; report whether any went. */
  method PurgeSessionsLoop(keys: seq<string>, m: map<string, Session>, cutoff: int)
    returns (kept: seq<string>, live: map<string, Session>, changed: bool)
    requires Distinct(keys) && forall j :: 0 <= j < |keys| ==> keys[j] in m
    ensures kept == Survivors(keys, m, cutoff) && live == DropExpired(keys, m, cutoff)
    ensures changed == AnySessionExpired(keys, m, cutoff)
  {
    kept, live := keys, m;
    changed := false;
    var i := 0;
    while i < |keys|
      invariant 0 <= i <= |keys|
      invariant kept == Survivors(keys[..i], m, cutoff) + keys[i..]
      invariant live == DropExpired(keys[..i], m, cutoff)
      invariant changed == AnySessionExpired(keys[..i], m, cutoff)
    {
      var dir := keys[i];
      PurgeSessionsStep(keys, m, cutoff, i);
      PurgeSessionsOrderStep(keys, m, cutoff, i);
      if SessionExpired(live[dir], cutoff) {
        live := live - {dir};
        kept := RemoveKey(kept, dir);
        changed := true;
      }
      i := i + 1;
    }
    assert keys[..i] == keys && keys[i..] == [];
  }

  /** Replacing one session by one that differs only in its stamp keeps a store
      equal to its snapshot modulo stamps. */
  lemma RestampKeepsSync(p: map<string, Session>, m: map<string, Session>, k: string, s: Session)
    requires SameModuloStamps(p, m) && k in m && Unstamped(s) == Unstamped(m[k])
    ensures SameModuloStamps(p, m[k := s])
  {
  }


  class Store {
    /** The keys of the `Map`, in iteration order. */
    var order: seq<string>
    var sessions: map<string, Session>
    /** A debounced save is scheduled (`saveTimer` is not null). */
    var savePending: bool
    /** How many times the full session list was pushed to the dashboards. */
    ghost var broadcasts: nat
    /** The store as last written to the data file: its key order and sessions. */
    ghost var persistedOrder: seq<string>
    ghost var persisted: map<string, Session>

    /** See `WellFormed`. */
    ghost predicate Consistent()
      reads this`order, this`sessions
    {
      WellFormed(order, sessions)
    }

    /** The session list a GET returns, a broadcast pushes and a save writes. */
    ghost function Entries(): seq<Session>
      reads this`order, this`sessions
      requires Consistent()
    {
      Values(order, sessions)
    }

    /** The data file holds the store, except for `lastUpdated` stamps bumped by
        updates that were not announced. */
    ghost predicate Synced()
      reads this`order, this`sessions, this`persistedOrder, this`persisted
    {
      persistedOrder == order && SameModuloStamps(persisted, sessions)
    }

    /** Whenever no save is pending, the data file is in sync with the store. */
    ghost predicate Valid()
      reads this
    {
      Consistent() && (!savePending ==> Synced())
    }

    /** The session list the data file holds. */
    ghost function SavedEntries(): seq<Session>
      reads this`persistedOrder, this`persisted
      requires WellFormed(persistedOrder, persisted)
    {
      Values(persistedOrder, persisted)
    }

    /** A store with no data file to load. */
    constructor ()
      ensures Valid()
      ensures order == [] && sessions == map[] && !savePending
      ensures broadcasts == 0 && persistedOrder == [] && persisted == map[]
    {
      order := [];
      sessions := map[];
      savePending := false;
      broadcasts := 0;
      persistedOrder := [];
      persisted := map[];
    }

    /** `scheduleSave`: whatever was pending, exactly one save is pending now. */
    method ScheduleSave()
      modifies this`savePending
      ensures savePending
    {
      savePending := true;
    }

    /** `saveSessions`: the snapshot written is the current session list. */
    ghost method SaveSessions()
      requires Consistent()
      modifies this`persistedOrder, this`persisted
      ensures persistedOrder == order && persisted == sessions
      ensures WellFormed(persistedOrder, persisted) && SavedEntries() == Entries()
    {
      persistedOrder, persisted := order, sessions;
    }

    /** `sessions.set(key, s)` on a registered key, followed, when the change is
        announced, by a broadcast and a scheduled save. A change that is not
        announced may only move the session's stamp. */
    method Commit(key: string, s: Session, announce: bool)
      requires Valid() && key in sessions && s.directory == key && AllStamped(s.tasks)
      requires !announce ==> Unstamped(s) == Unstamped(sessions[key])
      modifies this`sessions, this`savePending, this`broadcasts
      ensures Valid()
      ensures sessions == old(sessions)[key := s]
      ensures announce ==> broadcasts == old(broadcasts) + 1 && savePending
      ensures !announce ==> broadcasts == old(broadcasts) && savePending == old(savePending)
    {
      WellFormedSet(order, sessions, key, s);
      if !savePending && !announce {
        RestampKeepsSync(persisted, sessions, key, s);
      }
      sessions := sessions[key := s];
      if announce {
        broadcasts := broadcasts + 1;
        ScheduleSave();
      }
    }

    /** GET /api/sessions: every session, in key order. */
    method List() returns (r: seq<Session>)
      requires Consistent()
      ensures |r| == |order|
      ensures forall i :: 0 <= i < |order| ==> r[i] == sessions[order[i]]
    {
      r := [];
      var i := 0;
      while i < |order|
        invariant 0 <= i <= |order|
        invariant |r| == i
        invariant forall j :: 0 <= j < i ==> r[j] == sessions[order[j]]
      {
        r := r + [sessions[order[i]]];
        i := i + 1;
      }
    }

    /** POST /api/sessions: register a directory, or register it again. */
    method Register(directory: Option<string>, source: Option<string>, now: int) returns (code: int)
      requires Valid()
      modifies this`order, this`sessions, this`savePending, this`broadcasts
      ensures Valid()
      ensures !Given(directory) ==> code == 400 && unchanged(this)
      ensures Given(directory) && directory.value in old(sessions) ==>
        && code == 200
        && order == old(order)
        && sessions == old(sessions)[directory.value := Reregistered(old(sessions)[directory.value], source, now)]
      ensures Given(directory) && directory.value !in old(sessions) ==>
        && code == 201
        && order == old(order) + [directory.value]
        && sessions == old(sessions)[directory.value := NewSession(directory.value, now)]
      ensures Given(directory) ==>
        broadcasts == old(broadcasts) + 1 && savePending
    {
      if !Given(directory) {
        return 400;
      }
      var dir := directory.value;
      if dir in sessions {
        var existing := sessions[dir];
        var again := Reregistered(existing, source, now);
        FiltersKeepStamped(existing.tasks, "", 0);
        WellFormedSet(order, sessions, dir, again);
        sessions := sessions[dir := again];
        code := 200;
      } else {
        var created := NewSession(dir, now);
        WellFormedAdd(order, sessions, dir, created);
        order := order + [dir];
        sessions := sessions[dir := created];
        code := 201;
      }
      broadcasts := broadcasts + 1;
      ScheduleSave();
    }

    /** PUT /api/sessions: update the session `directory` names, or the first
        registered directory it lies below. */
    method Update(directory: Option<string>, summary: Option<string>, status: Option<Status>,
                  issues: Option<seq<Issue>>, now: int) returns (code: int, body: Option<Session>)
      requires Valid()
      modifies this`sessions, this`savePending, this`broadcasts
      ensures Valid()
      ensures !Given(directory) ==> code == 400 && body == None && unchanged(this)
      ensures Given(directory) && Resolve(old(order), directory.value).Unresolved? ==>
        code == 404 && body == None && unchanged(this)
      ensures Given(directory) && !Resolve(old(order), directory.value).Unresolved? ==>
        var route := Resolve(old(order), directory.value);
        var target := if route.Exact? then directory.value else route.parent;
        var before := old(sessions)[target];
        var after := Updated(before, summary, status, issues, route.Attributed?, now);
        && code == 200 && body == Some(after)
        && sessions == old(sessions)[target := after]
        && (if Notifies(summary, issues, before.status, after.status)
            then broadcasts == old(broadcasts) + 1 && savePending
            else broadcasts == old(broadcasts) && savePending == old(savePending))
    {
      if !Given(directory) {
        return 400, None;
      }
      var dir := directory.value;
      var route := Resolve(order, dir);
      if route.Unresolved? {
        return 404, None;
      }
      var target := if route.Exact? then dir else route.parent;
      var session := sessions[target];
      var after := Updated(session, summary, status, issues, route.Attributed?, now);
      SilentUpdateOnlyStamps(session, summary, status, issues, route.Attributed?, now);
      Commit(target, after, Notifies(summary, issues, session.status, after.status));
      code, body := 200, Some(after);
    }

    /** DELETE /api/sessions: forget a directory; absent directories are no error. */
    method Remove(directory: Option<string>) returns (code: int)
      requires Valid()
      modifies this`order, this`sessions, this`savePending, this`broadcasts
      ensures Valid()
      ensures !Given(directory) ==> code == 400 && unchanged(this)
      ensures Given(directory) ==>
        && code == 204
        && order == RemoveKey(old(order), directory.value)
        && sessions == old(sessions) - {directory.value}
        && broadcasts == old(broadcasts) + 1 && savePending
    {
      if !Given(directory) {
        return 400;
      }
      var dir := directory.value;
      WellFormedRemove(order, sessions, dir);
      order := RemoveKey(order, dir);
      sessions := sessions - {dir};
      code := 204;
      broadcasts := broadcasts + 1;
      ScheduleSave();
    }

    /** POST /api/sessions/tasks: append a new open task with the given id. */
    method AddTask(directory: Option<string>, text: Option<string>, id: string, now: int)
      returns (code: int, task: Option<Task>)
      requires Valid()
      modifies this`sessions, this`savePending, this`broadcasts
      ensures Valid()
      ensures !Given(directory) || !Given(text) ==> code == 400 && task == None && unchanged(this)
      ensures Given(directory) && Given(text) && directory.value !in old(sessions) ==>
        code == 404 && task == None && unchanged(this)
      ensures Given(directory) && Given(text) && directory.value in old(sessions) ==>
        var s := old(sessions)[directory.value];
        && code == 201 && task == Some(NewTask(id, text.value))
        && sessions == old(sessions)[directory.value :=
             s.(tasks := s.tasks + [NewTask(id, text.value)], lastUpdated := now)]
        && broadcasts == old(broadcasts) + 1 && savePending
    {
      if !Given(directory) || !Given(text) {
        return 400, None;
      }
      var dir := directory.value;
      if dir !in sessions {
        return 404, None;
      }
      var session := sessions[dir];
      var t := NewTask(id, text.value);
      sessions := sessions[dir := session.(tasks := session.tasks + [t], lastUpdated := now)];
      code, task := 201, Some(t);
      broadcasts := broadcasts + 1;
      ScheduleSave();
    }

    /** PUT /api/sessions/tasks: edit the first task with this id. */
    method UpdateTask(directory: Option<string>, taskId: Option<string>, text: Option<string>,
                      completed: Option<bool>, now: int) returns (code: int, task: Option<Task>)
      requires Valid()
      modifies this`sessions, this`savePending, this`broadcasts
      ensures Valid()
      ensures !Given(directory) || !Given(taskId) ==> code == 400 && task == None && unchanged(this)
      ensures Given(directory) && Given(taskId) && directory.value !in old(sessions) ==>
        code == 404 && task == None && unchanged(this)
      ensures Given(directory) && Given(taskId) && directory.value in old(sessions) ==>
        var s := old(sessions)[directory.value];
        var i := FirstTask(s.tasks, taskId.value);
        if i == |s.tasks| then
          code == 404 && task == None && unchanged(this)
        else
          var t := TaskUpdated(s.tasks[i], text, completed, now);
          && code == 200 && task == Some(t)
          && sessions == old(sessions)[directory.value := s.(tasks := s.tasks[i := t], lastUpdated := now)]
          && broadcasts == old(broadcasts) + 1 && savePending
    {
      if !Given(directory) || !Given(taskId) {
        return 400, None;
      }
      var dir := directory.value;
      if dir !in sessions {
        return 404, None;
      }
      var session := sessions[dir];
      var i := FirstTask(session.tasks, taskId.value);
      if i == |session.tasks| {
        return 404, None;
      }
      var t := TaskUpdated(session.tasks[i], text, completed, now);
      sessions := sessions[dir := session.(tasks := session.tasks[i := t], lastUpdated := now)];
      code, task := 200, Some(t);
      broadcasts := broadcasts + 1;
      ScheduleSave();
    }

    /** DELETE /api/sessions/tasks: drop every task with this id. */
    method DeleteTask(directory: Option<string>, taskId: Option<string>, now: int) returns (code: int)
      requires Valid()
      modifies this`sessions, this`savePending, this`broadcasts
      ensures Valid()
      ensures !Given(directory) || !Given(taskId) ==> code == 400 && unchanged(this)
      ensures Given(directory) && Given(taskId) && directory.value !in old(sessions) ==>
        code == 404 && unchanged(this)
      ensures Given(directory) && Given(taskId) && directory.value in old(sessions) ==>
        var s := old(sessions)[directory.value];
        && code == 204
        && sessions == old(sessions)[directory.value :=
             s.(tasks := WithoutTask(s.tasks, taskId.value), lastUpdated := now)]
        && broadcasts == old(broadcasts) + 1 && savePending
    {
      if !Given(directory) || !Given(taskId) {
        return 400;
      }
      var dir := directory.value;
      if dir !in sessions {
        return 404;
      }
      var session := sessions[dir];
      FiltersKeepStamped(session.tasks, taskId.value, 0);
      sessions := sessions[dir := session.(tasks := WithoutTask(session.tasks, taskId.value), lastUpdated := now)];
      code := 204;
      broadcasts := broadcasts + 1;
      ScheduleSave();
    }

    /** `purgeExpiredTasks`: drop, in every session, the completed tasks whose
        completion time is not after `now - TASK_TTL_MS`; report whether any went. */
    method PurgeExpiredTasks(now: int) returns (changed: bool)
      requires Consistent()
      modifies this`sessions
      ensures Consistent()
      ensures sessions == PurgeTasksOf(order, old(sessions), now - TASK_TTL_MS)
      ensures changed == AnyExpiredTask(order, old(sessions), now - TASK_TTL_MS)
    {
      var cutoff := now - TASK_TTL_MS;
      var live;
      live, changed := PurgeTasksLoop(order, sessions, cutoff);
      PurgeTasksKeepsWellFormed(order, sessions, cutoff);
      sessions := live;
    }

    /** `purgeExpiredSessions`: delete every stopped session last updated before
        `now - SESSION_ARCHIVE_TTL_MS` whose tasks are all completed; report whether
        any went. Deleting the current key while iterating leaves the rest of the
        iteration as it was. */
    method PurgeExpiredSessions(now: int) returns (changed: bool)
      requires Consistent()
      modifies this`order, this`sessions
      ensures Consistent()
      ensures order == Survivors(old(order), old(sessions), now - SESSION_ARCHIVE_TTL_MS)
      ensures sessions == DropExpired(old(order), old(sessions), now - SESSION_ARCHIVE_TTL_MS)
      ensures changed == AnySessionExpired(old(order), old(sessions), now - SESSION_ARCHIVE_TTL_MS)
    {
      var cutoff := now - SESSION_ARCHIVE_TTL_MS;
      var kept, live;
      kept, live, changed := PurgeSessionsLoop(order, sessions, cutoff);
      PurgeSessionsKeepsWellFormed(order, sessions, cutoff);
      order, sessions := kept, live;
    }

    /** The periodic sweep: purge tasks, then sessions, and announce and schedule a
        save once if either purge removed something. */
    method Sweep(now: int) returns (changed: bool)
      requires Valid()
      modifies this`order, this`sessions, this`savePending, this`broadcasts
      ensures Valid()
      ensures var purged := PurgeTasksOf(old(order), old(sessions), now - TASK_TTL_MS);
        && order == Survivors(old(order), purged, now - SESSION_ARCHIVE_TTL_MS)
        && sessions == DropExpired(old(order), purged, now - SESSION_ARCHIVE_TTL_MS)
        && changed == (AnyExpiredTask(old(order), old(sessions), now - TASK_TTL_MS) ||
                       AnySessionExpired(old(order), purged, now - SESSION_ARCHIVE_TTL_MS))
      ensures changed ==> broadcasts == old(broadcasts) + 1 && savePending
      ensures !changed ==>
        && broadcasts == old(broadcasts) && savePending == old(savePending)
        && order == old(order) && sessions == old(sessions)
    {
      ghost var order0, sessions0 := order, sessions;
      var tasksChanged := PurgeExpiredTasks(now);
      ghost var purged := sessions;
      var sessionsChanged := PurgeExpiredSessions(now);
      changed := tasksChanged || sessionsChanged;
      if changed {
        broadcasts := broadcasts + 1;
        ScheduleSave();
      } else {
        PurgeTasksOfNoop(order0, sessions0, now - TASK_TTL_MS);
        DropExpiredNoop(order0, purged, now - SESSION_ARCHIVE_TTL_MS);
      }
    }

    /** The clean-up after loading at start-up: the same two purges, written to
        disk at once (no broadcast, no debounce) if either removed something. */
    method StartupCleanup(now: int) returns (changed: bool)
      requires Valid()
      modifies this`order, this`sessions, this`persistedOrder, this`persisted
      ensures Valid()
      ensures var purged := PurgeTasksOf(old(order), old(sessions), now - TASK_TTL_MS);
        && order == Survivors(old(order), purged, now - SESSION_ARCHIVE_TTL_MS)
        && sessions == DropExpired(old(order), purged, now - SESSION_ARCHIVE_TTL_MS)
        && changed == (AnyExpiredTask(old(order), old(sessions), now - TASK_TTL_MS) ||
                       AnySessionExpired(old(order), purged, now - SESSION_ARCHIVE_TTL_MS))
      ensures changed ==> persistedOrder == order && persisted == sessions
      ensures !changed ==>
        && order == old(order) && sessions == old(sessions)
        && persistedOrder == old(persistedOrder) && persisted == old(persisted)
    {
      ghost var order0, sessions0 := order, sessions;
      var tasksChanged := PurgeExpiredTasks(now);
      ghost var purged := sessions;
      var sessionsChanged := PurgeExpiredSessions(now);
      changed := tasksChanged || sessionsChanged;
      if changed {
        SaveSessions();
      } else {
        PurgeTasksOfNoop(order0, sessions0, now - TASK_TTL_MS);
        DropExpiredNoop(order0, purged, now - SESSION_ARCHIVE_TTL_MS);
      }
    }

    /** The debounced save's timer callback; the timer only exists while a save is pending. */
    method SaveTimerFires()
      requires Valid() && savePending
      modifies this`savePending, this`persistedOrder, this`persisted
      ensures Valid()
      ensures !savePending && persistedOrder == order && persisted == sessions
    {
      savePending := false;
      SaveSessions();
    }

    /** `shutdown`: flush a pending save (and only then write); afterwards the data
        file holds the store, up to stamps of unannounced updates. */
    method Shutdown()
      requires Valid()
      modifies this`savePending, this`persistedOrder, this`persisted
      ensures Valid()
      ensures !savePending
      ensures old(savePending) ==> persistedOrder == order && persisted == sessions
      ensures !old(savePending) ==> persistedOrder == old(persistedOrder) && persisted == old(persisted)
      ensures Synced()
    {
      if savePending {
        savePending := false;
        SaveSessions();
      }
    }
  }
}
