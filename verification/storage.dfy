/** The reminder store and the scheduled callback, after `storage.py`: the process-wide
    store `user key -> (reminder name -> record)`, its persisted copy, the scheduler,
    loading and saving, re-registering the jobs at startup, and the transition taken
    when a job fires. */
module Storage {
  import opened Wrappers
  import opened Dict
  import opened Decimal
  import opened Clock
  import opened Scheduler

  /** A user is keyed by the decimal string of their numeric id. */
  type UserKey = string

  /** What is kept per reminder: the time token exactly as the user typed it, and the id
      of the job registered for it. */
  datatype Record = Record(time: string, jobId: JobId)

  type Reminders = Dict<string, Record>

  type Store = Dict<UserKey, Reminders>

  /** The in-memory store, the persisted copy (`None` while no document exists) and the
      scheduler's jobs. */
  datatype State = State(store: Store, disk: Option<Store>, jobs: Jobs)

  /** The reminders of user `u`, empty when `u` has none. */
  function UserReminders(store: Store, u: UserKey): (rs: Reminders) {
    Get(store, u).GetOr([])
  }

  /** `reminders[u][name]`, when `u in reminders and name in reminders[u]`. */
  function Lookup(store: Store, u: UserKey, name: string): (r: Option<Record>)
    ensures r.Some? <==> u in Keys(store) && name in Keys(UserReminders(store, u))
  {
    match Get(store, u)
    case None => None
    case Some(rs) => Get(rs, name)
  }

  /** `reminders[u][name] = rec` for a name `u` does not use yet, creating the user's map
      when absent: the record is appended to the user's reminders. */
  function Insert(store: Store, u: UserKey, name: string, rec: Record): (r: Store)
    requires Lookup(store, u, name).None?
    ensures Lookup(r, u, name) == Some(rec)
    ensures forall u', n' :: (u', n') != (u, name) ==> Lookup(r, u', n') == Lookup(store, u', n')
    ensures UserReminders(r, u) == UserReminders(store, u) + [(name, rec)]
    ensures forall u' :: u' != u ==> Get(r, u') == Get(store, u')
  {
    Put(store, u, Put(UserReminders(store, u), name, rec))
  }

  /** `del reminders[u][name]`: the user's map stays in place, even when it becomes empty. */
  function Forget(store: Store, u: UserKey, name: string): (r: Store)
    requires u in Keys(store)
    ensures Keys(r) == Keys(store)
    ensures Lookup(r, u, name) == None
    ensures forall u', n' :: (u', n') != (u, name) ==> Lookup(r, u', n') == Lookup(store, u', n')
    ensures UserReminders(r, u) == Remove(UserReminders(store, u), name)
    ensures forall u' :: u' != u ==> Get(r, u') == Get(store, u')
  {
    Put(store, u, Remove(UserReminders(store, u), name))
  }

  /** The persisted copy after `save_reminders`: the whole store. */
  function Save(store: Store): (disk: Option<Store>)
    ensures disk.Some? && disk.value == store
  {
    Some(store)
  }

  /** `load_reminders`: the persisted copy, or the empty store when there is none. */
  function Load(disk: Option<Store>): (store: Store)
    ensures disk.None? ==> store == []
    ensures disk.Some? ==> store == disk.value
  {
    disk.GetOr([])
  }

  /** One stored reminder, with the keys it is filed under. */
  datatype Entry = Entry(user: UserKey, name: string, record: Record)

  /** The reminders of one user as entries, in insertion order. */
  function UserEntries(u: UserKey, rs: seq<(string, Record)>): (es: seq<Entry>)
    ensures |es| == |rs|
    ensures forall i :: 0 <= i < |rs| ==> es[i] == Entry(u, rs[i].0, rs[i].1)
  {
    seq(|rs|, i requires 0 <= i < |rs| => Entry(u, rs[i].0, rs[i].1))
  }

  /** The entries of one user are that user's reminders, filed under the user. */
  lemma UserEntriesMember(u: UserKey, rs: seq<(string, Record)>, e: Entry)
    ensures e in UserEntries(u, rs) <==> e.user == u && (e.name, e.record) in rs
  {
    var es := UserEntries(u, rs);
    if e in es {
      var j :| 0 <= j < |es| && es[j] == e;
      assert rs[j] == (e.name, e.record);
    }
    if e.user == u && (e.name, e.record) in rs {
      var j :| 0 <= j < |rs| && rs[j] == (e.name, e.record);
      assert es[j] == e;
    }
  }

  /** Every stored reminder, users in insertion order and each user's reminders in
      insertion order: the iteration order of `restore_reminders`. */
  function Entries(store: seq<(UserKey, Reminders)>): (es: seq<Entry>) {
    if |store| == 0 then [] else UserEntries(store[0].0, store[0].1) + Entries(store[1..])
  }

  lemma {:induction false} EntriesMember(store: seq<(UserKey, Reminders)>, e: Entry)
    ensures e in Entries(store) <==>
      exists i :: 0 <= i < |store| && store[i].0 == e.user && (e.name, e.record) in store[i].1
  {
    if |store| > 0 {
      EntriesMember(store[1..], e);
      UserEntriesMember(store[0].0, store[0].1, e);
      if exists i :: 0 <= i < |store| && store[i].0 == e.user && (e.name, e.record) in store[i].1 {
        var i :| 0 <= i < |store| && store[i].0 == e.user && (e.name, e.record) in store[i].1;
        if i > 0 {
          assert store[1..][i - 1] == store[i];
        }
      }
    }
  }

  /** No two entries of a store are filed under the same user and name. */
  lemma {:induction false} EntriesDistinct(store: seq<(UserKey, Reminders)>)
    requires UniqueKeys(store)
    ensures var es := Entries(store);
      forall i, j :: 0 <= i < j < |es| ==> (es[i].user, es[i].name) != (es[j].user, es[j].name)
  {
    if |store| > 0 {
      var tail := store[1..];
      assert UniqueKeys(tail) by {
        forall a, b | 0 <= a < b < |tail| ensures tail[a].0 != tail[b].0 {
          assert tail[a] == store[a + 1] && tail[b] == store[b + 1];
        }
      }
      EntriesDistinct(tail);
      var head, rest := UserEntries(store[0].0, store[0].1), Entries(tail);
      var es := Entries(store);
      assert es == head + rest;
      forall i, j | 0 <= i < j < |es| ensures (es[i].user, es[i].name) != (es[j].user, es[j].name) {
        if j < |head| {
          assert es[i].name == store[0].1[i].0 && es[j].name == store[0].1[j].0;
        } else if i < |head| {
          var e := rest[j - |head|];
          assert es[j] == e;
          EntriesMember(tail, e);
          var k :| 0 <= k < |tail| && tail[k].0 == e.user && (e.name, e.record) in tail[k].1;
          assert tail[k] == store[k + 1];
        } else {
          assert es[i] == rest[i - |head|] && es[j] == rest[j - |head|];
        }
      }
    }
  }

  /** The entries are exactly the reminders the store files under their keys. */
  lemma EntriesLookup(store: Store, e: Entry)
    ensures e in Entries(store) <==> Lookup(store, e.user, e.name) == Some(e.record)
  {
    EntriesMember(store, e);
    if e in Entries(store) {
      var i :| 0 <= i < |store| && store[i].0 == e.user && (e.name, e.record) in store[i].1;
      GetIff(store, e.user, store[i].1);
      GetIff(store[i].1, e.name, e.record);
    }
    if Lookup(store, e.user, e.name) == Some(e.record) {
      var rs := Get(store, e.user).value;
      GetIff(store, e.user, rs);
      GetIff(rs, e.name, e.record);
      var i :| 0 <= i < |store| && store[i] == (e.user, rs);
    }
  }

  /** The job `restore_reminders` registers for an entry: the hour and minute read from
      the stored time, the user key read as the chat id. `None` when either read fails
      (the exception is logged and the entry skipped). */
  function RestoreJob(e: Entry): (r: Option<Job>)
    ensures r.Some? <==> ParseTime(e.record.time).Some? && ParseInt(e.user).Some?
    ensures r.Some? ==>
      && r.value.userId == e.user && r.value.name == e.name
      && ParseTime(e.record.time) == Some((r.value.hour, r.value.minute))
      && ParseInt(e.user) == Some(r.value.chatId)
  {
    match (ParseTime(e.record.time), ParseInt(e.user))
    case (Some((h, m)), Some(chat)) => Some(Job(h, m, chat, e.user, e.name))
    case _ => None
  }

  /** Registers the job of each restorable entry under its stored id, in order. */
  function RestoreAll(es: seq<Entry>, jobs: Jobs): (r: Jobs)
    ensures jobs.Keys <= r.Keys
    ensures |r| <= |jobs| + |es|
    decreases |es|
  {
    if |es| == 0 then jobs
    else
      var jobs' := match RestoreJob(es[0])
        case Some(job) => AddJob(jobs, es[0].record.jobId, job)
        case None => jobs;
      RestoreAll(es[1..], jobs')
  }

  ghost predicate Restored(es: seq<Entry>, id: JobId) {
    exists i :: 0 <= i < |es| && RestoreJob(es[i]).Some? && es[i].record.jobId == id
  }

  lemma RestoredCons(es: seq<Entry>, id: JobId)
    requires |es| > 0
    ensures Restored(es, id) <==>
              || Restored(es[1..], id)
              || (RestoreJob(es[0]).Some? && es[0].record.jobId == id)
  {
    if Restored(es, id) {
      var i :| 0 <= i < |es| && RestoreJob(es[i]).Some? && es[i].record.jobId == id;
      if i > 0 {
        assert es[1..][i - 1] == es[i];
      }
    }
    if Restored(es[1..], id) {
      var i :| 0 <= i < |es[1..]| && RestoreJob(es[1..][i]).Some? && es[1..][i].record.jobId == id;
      assert es[i + 1] == es[1..][i];
    }
  }

  /** Restoring adds exactly the ids of the restorable entries; jobs under other ids are
      left as they were. */
  lemma {:induction false} RestoreAllKeys(es: seq<Entry>, jobs: Jobs)
    ensures forall id :: id in RestoreAll(es, jobs) <==> id in jobs || Restored(es, id)
    ensures forall id :: id in jobs && !Restored(es, id) ==> RestoreAll(es, jobs)[id] == jobs[id]
    decreases |es|
  {
    if |es| > 0 {
      var jobs' := match RestoreJob(es[0])
        case Some(job) => AddJob(jobs, es[0].record.jobId, job)
        case None => jobs;
      RestoreAllKeys(es[1..], jobs');
      forall id {
        RestoredCons(es, id);
      }
    }
  }

  /** No two entries share a job id. */
  ghost predicate DistinctIds(es: seq<Entry>) {
    forall i, j :: 0 <= i < j < |es| ==> es[i].record.jobId != es[j].record.jobId
  }

  /** With distinct ids, each restorable entry ends up with its own job. */
  lemma {:induction false} RestoreAllJobs(es: seq<Entry>, jobs: Jobs, i: int)
    requires DistinctIds(es)
    requires 0 <= i < |es| && RestoreJob(es[i]).Some?
    ensures es[i].record.jobId in RestoreAll(es, jobs)
    ensures RestoreAll(es, jobs)[es[i].record.jobId] == RestoreJob(es[i]).value
    decreases |es|
  {
    var jobs' := match RestoreJob(es[0])
      case Some(job) => AddJob(jobs, es[0].record.jobId, job)
      case None => jobs;
    assert DistinctIds(es[1..]) by {
      forall a, b | 0 <= a < b < |es[1..]|
        ensures es[1..][a].record.jobId != es[1..][b].record.jobId {
        assert es[1..][a] == es[a + 1] && es[1..][b] == es[b + 1];
      }
    }
    if i > 0 {
      assert es[1..][i - 1] == es[i];
      RestoreAllJobs(es[1..], jobs', i - 1);
    } else {
      RestoreAllKeys(es[1..], jobs');
      assert !Restored(es[1..], es[0].record.jobId) by {
        forall k | 0 <= k < |es[1..]| ensures es[1..][k].record.jobId != es[0].record.jobId {
          assert es[1..][k] == es[k + 1];
        }
      }
    }
  }

  /** `restore_reminders`: register a job for every stored reminder whose time and user
      key read as integers; the store and its persisted copy are not touched. */
  function Restore(st: State): (r: State)
    ensures r.store == st.store && r.disk == st.disk
  {
    State(st.store, st.disk, RestoreAll(Entries(st.store), st.jobs))
  }

  /** Process start: the store is loaded from the persisted copy, then the jobs are
      restored into the still empty scheduler. */
  function Startup(disk: Option<Store>): (r: State)
    ensures r.store == Load(disk) && r.disk == disk
    ensures disk.None? ==> r == State([], None, map[])
  {
    Restore(State(Load(disk), disk, map[]))
  }

  /** A message sent to a chat. */
  datatype Notice = Notice(chatId: int, text: string)

  function ReminderText(name: string): (text: string) {
    "🔔 Напоминание: " + name
  }

  /** `send_scheduled_message(chat, u, name)`: send the reminder, then drop the record
      `(u, name)` and save if it is still stored. `delivered` is whether the send
      succeeded; a failed send raises before the store is touched. The scheduler is
      never changed here, so the daily job stays registered. */
  function Fire(st: State, chatId: int, u: UserKey, name: string, delivered: bool): (r: (State, Option<Notice>))
    ensures r.0.jobs == st.jobs
    ensures !delivered ==> r == (st, None)
    ensures delivered ==> r.1 == Some(Notice(chatId, ReminderText(name)))
    ensures Lookup(st.store, u, name).None? ==> r.0 == st
    ensures delivered && Lookup(st.store, u, name).Some? ==>
      && Lookup(r.0.store, u, name) == None
      && (forall u', n' :: (u', n') != (u, name) ==> Lookup(r.0.store, u', n') == Lookup(st.store, u', n'))
      && Keys(r.0.store) == Keys(st.store)
      && UserReminders(r.0.store, u) == Remove(UserReminders(st.store, u), name)
      && (forall u' :: u' != u ==> Get(r.0.store, u') == Get(st.store, u'))
      && r.0.disk == Some(r.0.store)
  {
    if !delivered then (st, None)
    else
      var notice := Some(Notice(chatId, ReminderText(name)));
      if Lookup(st.store, u, name).Some? then
        var store := Forget(st.store, u, name);
        (State(store, Save(store), st.jobs), notice)
      else
        (st, notice)
  }
}
