/** Properties that span several handlers: the help replies in terms of word counts, the
    `/add` command format, the agreement between records and jobs that every handler
    keeps, and what firing does to the record and the job of a reminder. */
module Lifecycle {
  import opened Wrappers
  import opened Dict
  import opened Text
  import opened Decimal
  import opened Clock
  import opened Scheduler
  import opened Storage
  import opened Reminds

  /** `/add` with fewer than three whitespace-separated words gets the format help and
      changes nothing. */
  lemma AddNeedsThreeWords(st: State, userId: int, chatId: int, text: string, newId: JobId)
    requires newId !in st.jobs
    requires WordCount(text) < 3
    ensures Add(st, userId, chatId, text, newId) == (st, FormatHelp)
  {
    SplitCount(text, 2);
  }

  /** `/delete` with fewer than two whitespace-separated words gets the name help and
      changes nothing. */
  lemma DeleteNeedsTwoWords(st: State, userId: int, text: string)
    requires WordCount(text) < 2
    ensures Delete(st, userId, text) == (st, NameHelp)
  {
    SplitCount(text, 1);
  }

  /** The command `<cmd> <h>:<m> <name>` asks for a reminder `name` at `h:m`, with the
      time token kept as written; the name may contain spaces. */
  lemma AddCommandRoundTrip(cmd: string, h: int, m: int, name: string)
    requires |cmd| > 0 && NoSpace(cmd)
    requires |name| > 0 && !IsSpace(name[0])
    ensures var t := IntToString(h) + ":" + IntToString(m);
      ParseAdd(cmd + " " + t + " " + name) == Some(AddRequest(t, h, m, name))
  {
    var t := IntToString(h) + ":" + IntToString(m);
    ParseTimeRoundTrip(h, m);
    ParseTimeNoSpace(t);
    SplitThree(cmd, t, name);
  }

  /** Any time token that reads is accepted, whatever whitespace precedes the command
      or separates the words: leading whitespace, and runs of spaces, tabs or line breaks
      between them. The token is kept as written. */
  lemma AddCommandToken(ws0: string, cmd: string, ws1: string, t: string, ws2: string, name: string)
    requires AllSpace(ws0) && |ws1| > 0 && AllSpace(ws1) && |ws2| > 0 && AllSpace(ws2)
    requires |cmd| > 0 && NoSpace(cmd)
    requires ParseTime(t).Some?
    requires |name| > 0 && !IsSpace(name[0])
    ensures ParseAdd(ws0 + cmd + (ws1 + t + (ws2 + name)))
              == Some(AddRequest(t, ParseTime(t).value.0, ParseTime(t).value.1, name))
  {
    ParseTimeNoSpace(t);
    SplitSpaced(ws0, cmd, ws1, t, ws2, name);
  }

  /** In particular a rendered hour and minute, with any such whitespace. */
  lemma AddCommandSpacing(ws0: string, cmd: string, ws1: string, h: int, m: int, ws2: string, name: string)
    requires AllSpace(ws0) && |ws1| > 0 && AllSpace(ws1) && |ws2| > 0 && AllSpace(ws2)
    requires |cmd| > 0 && NoSpace(cmd)
    requires |name| > 0 && !IsSpace(name[0])
    ensures var t := IntToString(h) + ":" + IntToString(m);
      ParseAdd(ws0 + cmd + (ws1 + t + (ws2 + name))) == Some(AddRequest(t, h, m, name))
  {
    var t := IntToString(h) + ":" + IntToString(m);
    ParseTimeRoundTrip(h, m);
    AddCommandToken(ws0, cmd, ws1, t, ws2, name);
  }

  /** A clock time written with leading zeros reads as its hour and minute. */
  lemma LeadingZerosTime()
    ensures ParseTime("07:05") == Some((7, 5))
  {
    var t := "07:05";
    var h, m := "0" + NatToString(7), "0" + NatToString(5);
    LeadingZerosParse("0", 7);
    LeadingZerosParse("0", 5);
    assert t[..2] == h && t[3..] == m && t[2] == ':';
    ParseTimeJoined(t, 2);
  }

  /** So `/add 07:05 <name>` is accepted, with any spacing, and the record keeps the
      token as written. */
  lemma AddLeadingZeros(ws0: string, cmd: string, ws1: string, t: string, ws2: string, name: string)
    requires AllSpace(ws0) && |ws1| > 0 && AllSpace(ws1) && |ws2| > 0 && AllSpace(ws2)
    requires |cmd| > 0 && NoSpace(cmd)
    requires t == "07:05"
    requires |name| > 0 && !IsSpace(name[0])
    ensures ParseAdd(ws0 + cmd + (ws1 + t + (ws2 + name))) == Some(AddRequest(t, 7, 5, name))
  {
    LeadingZerosTime();
    AddCommandToken(ws0, cmd, ws1, t, ws2, name);
  }

  /** A signed hour reads as `int` reads it: `+5:30` is 5:30. */
  lemma SignedHourTime()
    ensures ParseTime("+5:30") == Some((5, 30))
  {
    var t := "+5:30";
    assert t[..2] == "+5" && t[3..] == "30" && t[2] == ':';
    assert ParseInt("+5") == Some(5) by {
      assert "+5"[1..] == "5";
    }
    assert ParseInt("30") == Some(30) by {
      assert "30"[..1] == "3";
    }
    ParseTimeJoined(t, 2);
  }

  /** The job registered for the reminder `(u, n)` with record `rec`: it exists, it is
      for that user and name, and it fires at the time stored in the record. */
  ghost predicate JobFor(st: State, u: UserKey, n: string, rec: Record) {
    && rec.jobId in st.jobs
    && st.jobs[rec.jobId].userId == u
    && st.jobs[rec.jobId].name == n
    && ParseTime(rec.time) == Some((st.jobs[rec.jobId].hour, st.jobs[rec.jobId].minute))
  }

  /** Every stored reminder has its job. Distinct reminders then have distinct jobs, and
      the `remove_job` of `/delete` always finds the job it cancels. */
  ghost predicate Consistent(st: State) {
    forall u, n :: Lookup(st.store, u, n).Some? ==> JobFor(st, u, n, Lookup(st.store, u, n).value)
  }

  /** In a consistent state no two reminders share a job. */
  lemma ConsistentIdsDistinct(st: State, u1: UserKey, n1: string, u2: UserKey, n2: string)
    requires Consistent(st)
    requires Lookup(st.store, u1, n1).Some? && Lookup(st.store, u2, n2).Some?
    requires (u1, n1) != (u2, n2)
    ensures Lookup(st.store, u1, n1).value.jobId != Lookup(st.store, u2, n2).value.jobId
  {
    assert JobFor(st, u1, n1, Lookup(st.store, u1, n1).value);
    assert JobFor(st, u2, n2, Lookup(st.store, u2, n2).value);
  }

  lemma AddKeepsConsistent(st: State, userId: int, chatId: int, text: string, newId: JobId)
    requires newId !in st.jobs
    requires Consistent(st)
    ensures Consistent(Add(st, userId, chatId, text, newId).0)
  {
    var st' := Add(st, userId, chatId, text, newId).0;
    if ParseAdd(text).Some? && st' != st {
      var req := ParseAdd(text).value;
      var u := UserKeyOf(userId);
      forall u', n' | Lookup(st'.store, u', n').Some?
        ensures JobFor(st', u', n', Lookup(st'.store, u', n').value) {
        if (u', n') != (u, req.name) {
          assert JobFor(st, u', n', Lookup(st.store, u', n').value);
        }
      }
    }
  }

  /** A state whose reminders are some of a consistent state's, and whose scheduler
      keeps their jobs, is consistent. */
  lemma KeptJobsConsistent(st: State, st': State)
    requires Consistent(st)
    requires forall u, n :: Lookup(st'.store, u, n).Some? ==> Lookup(st'.store, u, n) == Lookup(st.store, u, n)
    requires forall u, n :: Lookup(st'.store, u, n).Some? ==>
               var id := Lookup(st'.store, u, n).value.jobId; id in st'.jobs && st'.jobs[id] == st.jobs[id]
    ensures Consistent(st')
  {
    forall u, n | Lookup(st'.store, u, n).Some?
      ensures JobFor(st', u, n, Lookup(st'.store, u, n).value) {
      assert JobFor(st, u, n, Lookup(st.store, u, n).value);
    }
  }

  /** Forgetting a reminder and cancelling its job keeps every other reminder's job. */
  lemma ForgetKeepsConsistent(st: State, u: UserKey, name: string, disk: Option<Store>)
    requires Consistent(st)
    requires Lookup(st.store, u, name).Some?
    ensures var gone := Lookup(st.store, u, name).value.jobId;
      Consistent(State(Forget(st.store, u, name), disk, RemoveJob(st.jobs, gone)))
  {
    var gone := Lookup(st.store, u, name).value.jobId;
    var st' := State(Forget(st.store, u, name), disk, RemoveJob(st.jobs, gone));
    forall u', n' | Lookup(st'.store, u', n').Some?
      ensures Lookup(st'.store, u', n') == Lookup(st.store, u', n')
      ensures var id := Lookup(st'.store, u', n').value.jobId; id in st'.jobs && st'.jobs[id] == st.jobs[id] {
      assert (u', n') != (u, name);
      var rec := Lookup(st.store, u', n').value;
      ConsistentIdsDistinct(st, u', n', u, name);
      assert JobFor(st, u', n', rec);
      assert rec.jobId != gone;
    }
    KeptJobsConsistent(st, st');
  }

  lemma DeleteKeepsConsistent(st: State, userId: int, text: string)
    requires Consistent(st)
    ensures Consistent(Delete(st, userId, text).0)
  {
    var parts := Split(text, 1);
    if |parts| == 2 && Lookup(st.store, UserKeyOf(userId), parts[1]).Some? {
      var u, name := UserKeyOf(userId), parts[1];
      var store := Forget(st.store, u, name);
      ForgetKeepsConsistent(st, u, name, Save(store));
    }
  }

  lemma FireKeepsConsistent(st: State, chatId: int, u: UserKey, name: string, delivered: bool)
    requires Consistent(st)
    ensures Consistent(Fire(st, chatId, u, name, delivered).0)
  {
    var st' := Fire(st, chatId, u, name, delivered).0;
    if delivered && Lookup(st.store, u, name).Some? {
      assert st' == State(Forget(st.store, u, name), Save(Forget(st.store, u, name)), st.jobs);
      KeptJobsConsistent(st, st');
    }
  }

  /** In a consistent state `/delete` of an existing reminder cancels a live job, the one
      registered for that reminder, and every other reminder keeps its job. */
  lemma DeleteCancelsOwnJob(st: State, userId: int, text: string)
    requires Consistent(st)
    requires |Split(text, 1)| == 2
    requires Lookup(st.store, UserKeyOf(userId), Split(text, 1)[1]).Some?
    ensures var rec := Lookup(st.store, UserKeyOf(userId), Split(text, 1)[1]).value;
      && rec.jobId in st.jobs
      && rec.jobId !in Delete(st, userId, text).0.jobs
      && |Delete(st, userId, text).0.jobs| == |st.jobs| - 1
  {
    var u, name := UserKeyOf(userId), Split(text, 1)[1];
    assert JobFor(st, u, name, Lookup(st.store, u, name).value);
  }

  /** A persisted store that restores cleanly: every time and user key reads as
      integers, and no two reminders share a job id. */
  ghost predicate Restorable(store: Store) {
    && (forall e :: e in Entries(store) ==> RestoreJob(e).Some?)
    && DistinctIds(Entries(store))
  }

  /** After startup from such a store, every reminder has its job again, under its saved
      job id, firing at its saved time. */
  lemma StartupConsistent(disk: Option<Store>)
    requires Restorable(Load(disk))
    ensures Consistent(Startup(disk))
  {
    var st := Startup(disk);
    var es := Entries(st.store);
    forall u, n | Lookup(st.store, u, n).Some?
      ensures JobFor(st, u, n, Lookup(st.store, u, n).value) {
      var e := Entry(u, n, Lookup(st.store, u, n).value);
      EntriesLookup(st.store, e);
      var i :| 0 <= i < |es| && es[i] == e;
      RestoreAllJobs(es, map[], i);
    }
  }

  /** Every user key reads back as an integer, as `restore_reminders` needs. */
  ghost predicate NumericKeys(store: Store) {
    forall u :: u in Keys(store) ==> ParseInt(u).Some?
  }

  /** `/add` files the reminder under `str(user id)`, so user keys keep reading as
      integers. */
  lemma AddKeepsNumericKeys(st: State, userId: int, chatId: int, text: string, newId: JobId)
    requires NumericKeys(st.store)
    requires newId !in st.jobs
    ensures NumericKeys(Add(st, userId, chatId, text, newId).0.store)
  {
    var req := ParseAdd(text);
    var key := UserKeyOf(userId);
    if req.Some? && Lookup(st.store, key, req.value.name).None? {
      var rec := Record(req.value.time, newId);
      assert Add(st, userId, chatId, text, newId).0.store == Insert(st.store, key, req.value.name, rec);
      ParseIntRoundTrip(userId);
      InsertNumericKeys(st.store, key, req.value.name, rec);
    }
  }

  /** `/delete` and firing keep the user keys as they are. */
  lemma RemovalsKeepNumericKeys(st: State, userId: int, text: string, chatId: int, u: UserKey,
                                name: string, delivered: bool)
    requires NumericKeys(st.store)
    ensures NumericKeys(Delete(st, userId, text).0.store)
    ensures NumericKeys(Fire(st, chatId, u, name, delivered).0.store)
  {
    var key, parts := UserKeyOf(userId), Split(text, 1);
    if |parts| == 2 && Lookup(st.store, key, parts[1]).Some? {
      assert Keys(Delete(st, userId, text).0.store) == Keys(st.store);
    }
    if delivered && Lookup(st.store, u, name).Some? {
      assert Keys(Fire(st, chatId, u, name, delivered).0.store) == Keys(st.store);
    }
  }

  lemma InsertNumericKeys(store: Store, u: UserKey, name: string, rec: Record)
    requires NumericKeys(store) && ParseInt(u).Some?
    requires Lookup(store, u, name).None?
    ensures NumericKeys(Insert(store, u, name, rec))
  {
    var r := Insert(store, u, name, rec);
    forall u' | u' in Keys(r) && u' != u ensures ParseInt(u').Some? {
      assert Get(r, u') == Get(store, u');
    }
  }

  /** A consistent store whose user keys read as integers restores cleanly: every
      stored time reads, and no two reminders share a job id. */
  lemma ConsistentRestorable(st: State)
    requires Consistent(st)
    requires NumericKeys(st.store)
    ensures Restorable(st.store)
  {
    var es := Entries(st.store);
    forall e | e in es ensures RestoreJob(e).Some? {
      EntriesLookup(st.store, e);
      assert JobFor(st, e.user, e.name, e.record);
    }
    EntriesDistinct(st.store);
    forall i, j | 0 <= i < j < |es| ensures es[i].record.jobId != es[j].record.jobId {
      EntriesLookup(st.store, es[i]);
      EntriesLookup(st.store, es[j]);
      ConsistentIdsDistinct(st, es[i].user, es[i].name, es[j].user, es[j].name);
    }
  }

  /** A restart after a save the handlers made gets the same reminders back, each again
      paired with its job. The handlers only ever store keys `str(user id)`, which read
      back as integers (`Decimal.ParseIntRoundTrip`). */
  lemma RestartConsistent(st: State)
    requires Consistent(st)
    requires NumericKeys(st.store)
    ensures Startup(Save(st.store)).store == st.store
    ensures Consistent(Startup(Save(st.store)))
  {
    ConsistentRestorable(st);
    StartupConsistent(Save(st.store));
  }

  /** At startup, the reminder `(u, n)` gets back its job under its saved id, at the hour
      and minute of its saved time, for chat `int(u)`, user `u` and name `n`. */
  lemma StartupRestoresRecord(disk: Option<Store>, u: UserKey, n: string)
    requires DistinctIds(Entries(Load(disk)))
    requires Lookup(Load(disk), u, n).Some?
    requires ParseTime(Lookup(Load(disk), u, n).value.time).Some?
    requires ParseInt(u).Some?
    ensures var rec := Lookup(Load(disk), u, n).value;
      var (h, m) := ParseTime(rec.time).value;
      && rec.jobId in Startup(disk).jobs
      && Startup(disk).jobs[rec.jobId] == Job(h, m, ParseInt(u).value, u, n)
  {
    var store := Load(disk);
    var es := Entries(store);
    var e := Entry(u, n, Lookup(store, u, n).value);
    EntriesLookup(store, e);
    var i :| 0 <= i < |es| && es[i] == e;
    RestoreAllJobs(es, map[], i);
  }

  /** At startup, the registered job ids are exactly the saved ids of the reminders whose
      time and user key read as integers; the others are skipped. */
  lemma StartupJobIds(disk: Option<Store>, id: JobId)
    ensures id in Startup(disk).jobs <==>
      exists e :: e in Entries(Load(disk)) && RestoreJob(e).Some? && e.record.jobId == id
  {
    var es := Entries(Load(disk));
    RestoreAllKeys(es, map[]);
    if id in Startup(disk).jobs {
      var i :| 0 <= i < |es| && RestoreJob(es[i]).Some? && es[i].record.jobId == id;
    }
  }

  /** A reminder created by user `userId` is sent to chat `userId` once restored: the
      user key reads back as the numeric id, whatever chat it was created in. */
  lemma RestoredChatIsUser(disk: Option<Store>, userId: int, n: string)
    requires DistinctIds(Entries(Load(disk)))
    requires Lookup(Load(disk), UserKeyOf(userId), n).Some?
    requires ParseTime(Lookup(Load(disk), UserKeyOf(userId), n).value.time).Some?
    ensures var id := Lookup(Load(disk), UserKeyOf(userId), n).value.jobId;
      id in Startup(disk).jobs && Startup(disk).jobs[id].chatId == userId
  {
    ParseIntRoundTrip(userId);
    StartupRestoresRecord(disk, UserKeyOf(userId), n);
  }

  /** `/delete <name>` right after `/add` of that name undoes it: the reminders are the
      ones before and the scheduler holds the jobs it held before. */
  lemma AddThenDelete(st: State, userId: int, chatId: int, text: string, newId: JobId, cmd: string)
    requires newId !in st.jobs
    requires ParseAdd(text).Some?
    requires Lookup(st.store, UserKeyOf(userId), ParseAdd(text).value.name).None?
    requires |cmd| > 0 && NoSpace(cmd)
    ensures var name := ParseAdd(text).value.name;
      var (st2, reply) := Delete(Add(st, userId, chatId, text, newId).0, userId, cmd + " " + name);
      && reply == Deleted(name)
      && st2.jobs == st.jobs
      && (forall u, n :: Lookup(st2.store, u, n) == Lookup(st.store, u, n))
  {
    var u, req := UserKeyOf(userId), ParseAdd(text).value;
    var name, rec := req.name, Record(req.time, newId);
    assert name == Split(text, 2)[2];
    SplitTwo(cmd, name);
    var st1 := Add(st, userId, chatId, text, newId).0;
    assert Lookup(st1.store, u, name) == Some(rec);
    var st2 := Delete(st1, userId, cmd + " " + name).0;
    UndoJobs(st.jobs, st1.jobs, st2.jobs, newId);
    UndoLookups(st.store, st1.store, st2.store, u, name);
  }

  /** Adding a fresh job and then removing it leaves the scheduler as it was. */
  lemma UndoJobs(a: Jobs, b: Jobs, c: Jobs, id: JobId)
    requires id !in a
    requires b.Keys == a.Keys + {id} && forall i :: i in a ==> b[i] == a[i]
    requires c.Keys == b.Keys - {id} && forall i :: i in c ==> c[i] == b[i]
    ensures c == a
  {
  }

  /** Storing an absent reminder and then forgetting it leaves every lookup as it was. */
  lemma UndoLookups(a: Store, b: Store, c: Store, u: UserKey, name: string)
    requires Lookup(a, u, name).None? && Lookup(c, u, name).None?
    requires forall u', n' :: (u', n') != (u, name) ==> Lookup(b, u', n') == Lookup(a, u', n')
    requires forall u', n' :: (u', n') != (u, name) ==> Lookup(c, u', n') == Lookup(b, u', n')
    ensures forall u', n' :: Lookup(c, u', n') == Lookup(a, u', n')
  {
  }

  lemma LinesAppend(rs: seq<(string, Record)>, name: string, rec: Record)
    ensures Lines(rs + [(name, rec)]) == Lines(rs) + [ListLine(name, rec.time)]
  {
  }

  /** After a successful `/add`, `/check` lists the new reminder last, after the
      reminders listed before. */
  lemma CheckAfterAdd(st: State, userId: int, chatId: int, text: string, newId: JobId)
    requires newId !in st.jobs
    requires ParseAdd(text).Some?
    requires Lookup(st.store, UserKeyOf(userId), ParseAdd(text).value.name).None?
    ensures var req := ParseAdd(text).value;
      var before := Check(st, userId);
      Check(Add(st, userId, chatId, text, newId).0, userId)
        == Listing((if before.Listing? then before.lines else []) + [ListLine(req.name, req.time)])
  {
    var u, req := UserKeyOf(userId), ParseAdd(text).value;
    var rec := Record(req.time, newId);
    var st1 := Add(st, userId, chatId, text, newId).0;
    assert st1.store == Insert(st.store, u, req.name, rec);
    var rs := UserReminders(st.store, u);
    assert UserReminders(st1.store, u) == rs + [(req.name, rec)];
    LinesAppend(rs, req.name, rec);
    assert Lines([]) == [];
  }

  /** Cutting one reminder out cuts its line out of the listing. */
  lemma LinesCut(rs: seq<(string, Record)>, i: nat)
    requires i < |rs|
    ensures Lines(rs[..i] + rs[i + 1..]) == Lines(rs)[..i] + Lines(rs)[i + 1..]
  {
    var a, b := Lines(rs[..i] + rs[i + 1..]), Lines(rs)[..i] + Lines(rs)[i + 1..];
    assert |a| == |b|;
    forall k | 0 <= k < |a| ensures a[k] == b[k] {
      if k >= i {
        assert (rs[..i] + rs[i + 1..])[k] == rs[k + 1];
      }
    }
  }

  /** After a successful `/delete`, `/check` lists the lines it listed before, in the
      same order, without the deleted reminder's line. */
  lemma CheckAfterDelete(st: State, userId: int, text: string)
    requires |Split(text, 1)| == 2
    requires Lookup(st.store, UserKeyOf(userId), Split(text, 1)[1]).Some?
    ensures var u, name := UserKeyOf(userId), Split(text, 1)[1];
      var before := Check(st, userId);
      var i := IndexOf(UserReminders(st.store, u), name);
      && before.Listing? && i < |before.lines|
      && var after := before.lines[..i] + before.lines[i + 1..];
         Check(Delete(st, userId, text).0, userId) == if after == [] then NoReminders else Listing(after)
  {
    var u, name := UserKeyOf(userId), Split(text, 1)[1];
    var rs := UserReminders(st.store, u);
    var i := IndexOf(rs, name);
    DeleteCuts(st, userId, text);
    LinesCut(rs, i);
    CheckOf(st, userId);
    CheckOf(Delete(st, userId, text).0, userId);
  }

  /** `/check` lists the lines of the user's reminders, or answers that there are none. */
  lemma CheckOf(st: State, userId: int)
    ensures var rs := UserReminders(st.store, UserKeyOf(userId));
      Check(st, userId) == if rs == [] then NoReminders else Listing(Lines(rs))
  {
  }

  /** A successful `/delete` cuts the reminder out of the user's reminders. */
  lemma DeleteCuts(st: State, userId: int, text: string)
    requires |Split(text, 1)| == 2
    requires Lookup(st.store, UserKeyOf(userId), Split(text, 1)[1]).Some?
    ensures var u, name := UserKeyOf(userId), Split(text, 1)[1];
      var rs := UserReminders(st.store, u);
      var i := IndexOf(rs, name);
      UserReminders(Delete(st, userId, text).0.store, u) == rs[..i] + rs[i + 1..]
  {
  }

  /** `/check` lists every stored reminder of the user with its time. */
  lemma CheckListsEveryReminder(st: State, userId: int, n: string)
    requires Lookup(st.store, UserKeyOf(userId), n).Some?
    ensures Check(st, userId).Listing?
    ensures ListLine(n, Lookup(st.store, UserKeyOf(userId), n).value.time) in Check(st, userId).lines
  {
    var u := UserKeyOf(userId);
    var rs := Get(st.store, u).value;
    var rec := Lookup(st.store, u, n).value;
    GetIff(rs, n, rec);
    var i :| 0 <= i < |rs| && rs[i] == (n, rec);
    assert Check(st, userId).lines[i] == ListLine(n, rec.time);
  }

  /** Every line of `/check` is a stored reminder of the user with its time. */
  lemma CheckLineIsReminder(st: State, userId: int, i: int)
    requires Check(st, userId).Listing?
    requires 0 <= i < |Check(st, userId).lines|
    ensures exists n, rec :: Lookup(st.store, UserKeyOf(userId), n) == Some(rec)
                             && Check(st, userId).lines[i] == ListLine(n, rec.time)
  {
    var u := UserKeyOf(userId);
    var rs := Get(st.store, u).value;
    GetIff(rs, rs[i].0, rs[i].1);
    assert Lookup(st.store, u, rs[i].0) == Some(rs[i].1);
  }

  /** Firing drops the record but not the job: the daily job stays registered with no
      record pointing at it, and `/delete` of the name now reports it as not found, so
      the job can no longer be cancelled by the user. */
  lemma FireLeavesOrphanJob(st: State, userId: int, n: string, cmd: string)
    requires Consistent(st)
    requires Lookup(st.store, UserKeyOf(userId), n).Some?
    requires |cmd| > 0 && NoSpace(cmd)
    requires |n| > 0 && !IsSpace(n[0])
    ensures var rec := Lookup(st.store, UserKeyOf(userId), n).value;
      var job := st.jobs[rec.jobId];
      var st1 := Fire(st, job.chatId, job.userId, job.name, true).0;
      && st1.jobs[rec.jobId] == job
      && (forall u', n' :: Lookup(st1.store, u', n').Some? ==> Lookup(st1.store, u', n').value.jobId != rec.jobId)
      && Delete(st1, userId, cmd + " " + n) == (st1, NotFound)
  {
    var u := UserKeyOf(userId);
    var rec := Lookup(st.store, u, n).value;
    assert JobFor(st, u, n, rec);
    var job := st.jobs[rec.jobId];
    var st1 := Fire(st, job.chatId, job.userId, job.name, true).0;
    forall u', n' | Lookup(st1.store, u', n').Some?
      ensures Lookup(st1.store, u', n').value.jobId != rec.jobId {
      ConsistentIdsDistinct(st, u', n', u, n);
    }
    SplitTwo(cmd, n);
  }

  /** A job left behind by an earlier firing still removes a record: when the user adds
      a new reminder under the same name, the old job's next firing drops the new
      record, while the new job stays registered. */
  lemma StaleJobDropsNewRecord(st: State, userId: int, chatId: int, text: string, newId: JobId, oldId: JobId)
    requires newId !in st.jobs
    requires oldId in st.jobs
    requires ParseAdd(text).Some?
    requires Lookup(st.store, UserKeyOf(userId), ParseAdd(text).value.name).None?
    requires st.jobs[oldId].userId == UserKeyOf(userId) && st.jobs[oldId].name == ParseAdd(text).value.name
    ensures var st1 := Add(st, userId, chatId, text, newId).0;
      var stale := st1.jobs[oldId];
      var st2 := Fire(st1, stale.chatId, stale.userId, stale.name, true).0;
      && Lookup(st1.store, UserKeyOf(userId), stale.name) == Some(Record(ParseAdd(text).value.time, newId))
      && Lookup(st2.store, UserKeyOf(userId), stale.name) == None
      && newId in st2.jobs
  {
  }
}
