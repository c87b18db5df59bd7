/** The three command handlers of `reminds.py`, each a transition from a state and the
    command text to a new state and the reply. A user is identified by their numeric id,
    which becomes the store key `str(id)`; the job id of a new reminder is supplied by
    the scheduler and is fresh. */
module Reminds {
  import opened Wrappers
  import opened Dict
  import opened Text
  import opened Decimal
  import opened Clock
  import opened Scheduler
  import opened Storage

  datatype Reply =
    | FormatHelp                           // `/add` not in the form `/add HH:MM name`
    | AlreadyExists                        // `/add` with a name the user already uses
    | Created(name: string, time: string)
    | NoReminders                          // `/check` for a user without reminders
    | Listing(lines: seq<string>)
    | NameHelp                             // `/delete` without a name
    | NotFound
    | Deleted(name: string)
  {
    /** The message text sent back to the user. */
    function Text(): (r: string)
      ensures |r| > 0
      ensures r[0] == '❌' <==> FormatHelp? || AlreadyExists? || NameHelp? || NotFound?
    {
      match this
      case FormatHelp =>
        Refusal("Формат команды:\n" + "/add ЧЧ:ММ название напоминания\n" + "Пример:\n" + "/add 12:41 убраться в комнате")
      case AlreadyExists => Refusal("У вас уже есть напоминание с таким названием")
      case Created(name, time) => "⏰ Напоминание создано:\n" + "Название: " + name + "\n" + "Время: " + time
      case NoReminders => "У вас нет активных напоминаний"
      case Listing(lines) => "Ваши напоминания:\n" + Join(lines, "\n")
      case NameHelp => Refusal("Укажите название напоминания:\n" + "/delete название_напоминания")
      case NotFound => Refusal("Напоминание не найдено")
      case Deleted(name) => "Напоминание '" + name + "' удалено"
    }
  }

  /** A reply that refuses the command: the message behind a cross mark. */
  function Refusal(msg: string): (r: string)
    ensures |r| > 0 && r[0] == '❌'
  {
    "❌ " + msg
  }

  /** `str(message.from_user.id)`. */
  function UserKeyOf(userId: int): (u: UserKey) {
    IntToString(userId)
  }

  /** What a well-formed `/add` asks for: the time token verbatim, its hour and minute,
      and the name (the rest of the message). */
  datatype AddRequest = AddRequest(time: string, hour: int, minute: int, name: string)

  /** `text.split(maxsplit=2)` must give three parts, and the second must be a time. */
  function ParseAdd(text: string): (r: Option<AddRequest>)
    ensures WordCount(text) < 3 ==> r.None?
    ensures r.Some? <==> |Split(text, 2)| == 3 && ParseTime(Split(text, 2)[1]).Some?
    ensures r.Some? ==>
      && NoSpace(r.value.time)
      && ParseTime(r.value.time) == Some((r.value.hour, r.value.minute))
      && |r.value.name| > 0 && !IsSpace(r.value.name[0])
      && |Split(text, 2)| == 3 && Split(text, 2)[1] == r.value.time && Split(text, 2)[2] == r.value.name
  {
    var parts := Split(text, 2);
    SplitCount(text, 2);
    if |parts| < 3 then None
    else
      match ParseTime(parts[1])
      case Some((h, m)) => Some(AddRequest(parts[1], h, m, parts[2]))
      case None => None
  }

  /** `cmd_settime` (`/add HH:MM name`). */
  function Add(st: State, userId: int, chatId: int, text: string, newId: JobId): (r: (State, Reply))
    requires newId !in st.jobs
    ensures match ParseAdd(text)
      case None => r == (st, FormatHelp)
      case Some(req) =>
        var u := UserKeyOf(userId);
        if Lookup(st.store, u, req.name).Some? then r == (st, AlreadyExists)
        else
          && r.1 == Created(req.name, req.time)
          && r.0.jobs.Keys == st.jobs.Keys + {newId}
          && |r.0.jobs| == |st.jobs| + 1
          && r.0.jobs[newId] == Job(req.hour, req.minute, chatId, u, req.name)
          && (forall id :: id in st.jobs ==> r.0.jobs[id] == st.jobs[id])
          && Lookup(r.0.store, u, req.name) == Some(Record(req.time, newId))
          && (forall u', n' :: (u', n') != (u, req.name) ==> Lookup(r.0.store, u', n') == Lookup(st.store, u', n'))
          && UserReminders(r.0.store, u) == UserReminders(st.store, u) + [(req.name, Record(req.time, newId))]
          && (forall u' :: u' != u ==> Get(r.0.store, u') == Get(st.store, u'))
          && r.0.disk == Some(r.0.store)
  {
    match ParseAdd(text)
    case None => (st, FormatHelp)
    case Some(req) =>
      var u := UserKeyOf(userId);
      if Lookup(st.store, u, req.name).Some? then (st, AlreadyExists)
      else
        var jobs := AddJob(st.jobs, newId, Job(req.hour, req.minute, chatId, u, req.name));
        var store := Insert(st.store, u, req.name, Record(req.time, newId));
        (State(store, Save(store), jobs), Created(req.name, req.time))
  }

  /** One line of the `/check` listing. */
  function ListLine(name: string, time: string): (line: string) {
    "⏰ " + name + " - " + time
  }

  /** `cmd_myreminders` (`/check`): a read-only listing of the user's reminders. */
  function Check(st: State, userId: int): (r: Reply)
    ensures r.NoReminders? || r.Listing?
    ensures var u := UserKeyOf(userId);
      r.NoReminders? <==> u !in Keys(st.store) || Get(st.store, u) == Some([])
    ensures r.Listing? ==>
      var rs := UserReminders(st.store, UserKeyOf(userId));
      && |r.lines| == |rs|
      && forall i :: 0 <= i < |rs| ==> r.lines[i] == ListLine(rs[i].0, rs[i].1.time)
  {
    var rs := UserReminders(st.store, UserKeyOf(userId));
    if |rs| == 0 then NoReminders else Listing(Lines(rs))
  }

  /** The listing lines of some reminders, in their order. */
  function Lines(rs: seq<(string, Record)>): (lines: seq<string>)
    ensures |lines| == |rs|
  {
    seq(|rs|, i requires 0 <= i < |rs| => ListLine(rs[i].0, rs[i].1.time))
  }

  /** `cmd_delreminder` (`/delete name`). */
  function Delete(st: State, userId: int, text: string): (r: (State, Reply))
    ensures |Split(text, 1)| < 2 ==> r == (st, NameHelp)
    ensures |Split(text, 1)| == 2 ==>
      var u, name := UserKeyOf(userId), Split(text, 1)[1];
      match Lookup(st.store, u, name)
      case None => r == (st, NotFound)
      case Some(rec) =>
        && r.1 == Deleted(name)
        && r.0.jobs.Keys == st.jobs.Keys - {rec.jobId}
        && (forall id :: id in r.0.jobs ==> r.0.jobs[id] == st.jobs[id])
        && Lookup(r.0.store, u, name) == None
        && (forall u', n' :: (u', n') != (u, name) ==> Lookup(r.0.store, u', n') == Lookup(st.store, u', n'))
        && Keys(r.0.store) == Keys(st.store)
        && UserReminders(r.0.store, u) == Remove(UserReminders(st.store, u), name)
        && (forall u' :: u' != u ==> Get(r.0.store, u') == Get(st.store, u'))
        && r.0.disk == Some(r.0.store)
  {
    var parts := Split(text, 1);
    if |parts| < 2 then (st, NameHelp)
    else
      var u, name := UserKeyOf(userId), parts[1];
      match Lookup(st.store, u, name)
      case None => (st, NotFound)
      case Some(rec) =>
        var jobs := RemoveJob(st.jobs, rec.jobId);
        var store := Forget(st.store, u, name);
        (State(store, Save(store), jobs), Deleted(name))
  }
}
