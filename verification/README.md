# Reminder bookkeeping of a Telegram reminder bot, in Dafny

This project models the reminder handlers of a small aiogram bot. A user adds a named
daily reminder with `/add HH:MM name`, lists their reminders with `/check` and removes
one with `/delete name`. Each reminder is a daily cron job in the scheduler. When the
job fires, the bot sends the reminder text and drops the stored record. The store is
saved to a document after every change. At startup it is loaded again and one job is
re-registered per stored record.

The model has two pieces of state:

- **The store.** A map from user key (`str` of the numeric user id) to that user's
  reminders. Each user's reminders map the reminder name to a record holding the time
  token as typed and the job id. Both levels are insertion-ordered dictionaries, like
  Python dicts (module `Dict`).
- **The scheduler.** A finite map from job id to a job. A job is the hour and minute it
  fires at, plus the callback's arguments: chat id, user key and name (module
  `Scheduler`).

`State` also holds `disk`, the persisted copy: `None` until the first save, and the
whole store after each save.

Every handler is a pure transition from a state and its input to a new state and a
reply:

- `Reminds.Add` models `/add`.
- `Reminds.Check` models `/check`.
- `Reminds.Delete` models `/delete`.
- `Storage.Fire` models the job callback.
- `Storage.Restore` and `Storage.Startup` model startup.

Replies are a datatype. `Reply.Text` gives the exact message sent for each one.

The helper modules model the Python behaviour the handlers depend on:

- `Text` models `str.split(maxsplit=n)` on whitespace, `str.split(':')` and
  `str.join`.
- `Decimal` models `int(token)` and `str(n)`.
- `Clock` models reading the `HH:MM` token.

Module `Lifecycle` holds the properties that span several handlers. The main one is an
invariant: every stored reminder has a job, under its record's job id, for that user and
name, at the stored time. `/add`, `/delete` and firing all preserve it, and startup from
a cleanly restorable document establishes it. Every document the handlers save is such a
document, so the invariant survives a restart (`Lifecycle.RestartConsistent`).

Things the code does that the proofs make visible:

- **No range check in the handler's own parse.** The time token only has to be two
  integers around one colon, so `25:61` passes `hour, minute = map(int, ...)`
  (`Clock.ParseTimeIff`). In the program the scheduler's cron trigger then rejects it
  with a `ValueError`, and the handler answers with the format help. That rejection
  belongs to the scheduler library and is left out (see "Left out"): the model
  registers the job.
- **Firing leaves the job behind.** Firing removes the record but never touches the
  scheduler. The daily job stays registered with no record pointing at it, and
  `/delete` of that name then answers "not found" (`Lifecycle.FireLeavesOrphanJob`).
- **An old job can drop a new record.** Suppose the user adds the same name again. When
  the old job next fires, it drops the new record, and the new record's job stays
  (`Lifecycle.StaleJobDropsNewRecord`).
- **Restored reminders go to the user's private chat.** A reminder created in any chat
  is sent after a restart to the chat whose id is the user id, because restore reads the
  user key back as the chat id (`Lifecycle.RestoredChatIsUser`).

The model keeps all of these, except for the library's rejection in the first.

Reminders are keyed by name within a user, every job is a daily cron job, and a
reminder's record is dropped the first time its job fires.

## Model

| member | source | states |
|---|---|---|
| `Dict.Put` | bot/handlers/reminds/reminds.py:34-40 | Assigning a key makes it map to the new value and leaves every other key's value alone. An absent key is appended at the end. A present key keeps its position. |
| `Dict.Remove` | bot/handlers/reminds/reminds.py:80 | Deleting a key removes exactly that pair and leaves every other key's value alone. The remaining pairs keep their order (the result is the dictionary with that one position cut out). |
| `Dict.GetIff` | bot/handlers/reminds/reminds.py:21 | In a dictionary (distinct keys), a lookup of `k` yields `v` exactly when the pair `(k, v)` is stored. |
| `Dict.KeysMember` | bot/handlers/reminds/reminds.py:21 | `name in d` holds exactly when some pair `(name, v)` is stored. |
| `Dict.UniqueKeysIff` | bot/handlers/reminds/reminds.py:35-37 | A dictionary, whose keys are unique because assignment overwrites a present key, is exactly a list of pairs whose key list has no repeated entry. |
| `Text.Split` | bot/handlers/reminds/reminds.py:11 | `split(maxsplit=n)` gives at most `n + 1` parts. Every part is non-empty and starts with a non-whitespace character. The first `n` parts contain no whitespace. What the parts are is stated by `Text.SplitWord`, `Text.SplitRest` and `Text.SplitBlank`. |
| `Text.SplitWord` | bot/handlers/reminds/reminds.py:11 | With splits left, leading whitespace is skipped and the next part is the following word. The remainder after the word, whitespace included, is split with one split fewer. |
| `Text.SplitRest` | bot/handlers/reminds/reminds.py:11 | With no splits left, the last part is the rest of the string without its leading whitespace. Its trailing whitespace and inner whitespace are kept. |
| `Text.SplitBlank` | bot/handlers/reminds/reminds.py:11 | A string of whitespace only gives no parts. |
| `Text.SplitSpaced` | bot/handlers/reminds/reminds.py:11-16 | Two words and a rest, with any whitespace before and between them (spaces, tabs, line breaks), split with `maxsplit = 2` into the two words and the rest. |
| `Text.SplitCount` | bot/handlers/reminds/reminds.py:11-13 | The number of parts is the number of words (counted character by character) capped at `maxsplit + 1`. |
| `Text.SplitThree` | bot/handlers/reminds/reminds.py:11-16 | Three tokens separated by single spaces split back into the command, the time token and the whole rest (which may hold spaces). |
| `Text.SplitTwo` | bot/handlers/reminds/reminds.py:72 | A command followed by a space and a name splits into the command and the whole name. |
| `Text.SplitOn` | bot/handlers/reminds/reminds.py:17 | `split(c)` yields at least one part, and no part contains the separator. |
| `Text.SplitOnCount` | bot/handlers/reminds/reminds.py:17 | `split(c)` yields one more part than the string has occurrences of `c`. |
| `Text.JoinSplitOn` | bot/handlers/reminds/reminds.py:17 | Joining the parts of `split(c)` with `c` gives back the string. |
| `Text.SplitOnJoin` | bot/handlers/reminds/reminds.py:17 | Splitting the `c`-join of `c`-free parts gives back the parts. |
| `Decimal.ParseInt` | bot/handlers/reminds/reminds.py:17 | An accepted token is non-empty and all ASCII digits, except for a sign in first place. |
| `Decimal.ParseIntIff` | bot/handlers/reminds/reminds.py:17 | `int()` accepts a token exactly when it is ASCII digits, at least one, after an optional leading sign. Both directions are proved. |
| `Decimal.LeadingZerosParse` | bot/handlers/reminds/reminds.py:17 | Leading zeros are read through: `int` of zeros followed by the digits of `n` is `n`, so `07` reads as 7. |
| `Decimal.ParseIntRoundTrip` | bot/handlers/reminds/storage.py:34 | Reading the decimal rendering (`str`) of any integer with `int` gives back that integer. |
| `Clock.ParseTime` | bot/handlers/reminds/reminds.py:17 | A time token that reads has exactly one colon. |
| `Clock.ParseTimeIff` | bot/handlers/reminds/reminds.py:17 | A time token reads as `(h, m)` exactly when it is an integer for `h`, one colon and an integer for `m`. Both directions are proved, and no range check is made. |
| `Clock.ParseTimeNoSpace` | bot/handlers/reminds/reminds.py:11-17 | A time token that reads contains no whitespace, so it is always a single word of the command. |
| `Clock.ParseTimeRoundTrip` | bot/handlers/reminds/storage.py:27 | Two integers written around a colon read back as that hour and minute. |
| `Scheduler.AddJob` | bot/handlers/reminds/reminds.py:25-32 | Registering a job adds exactly its id, maps the id to the job and keeps every other job. |
| `Scheduler.RemoveJob` | bot/handlers/reminds/reminds.py:78 | Cancelling removes exactly the given id and keeps every other job unchanged. |
| `Storage.Lookup` | bot/handlers/reminds/reminds.py:21 | A reminder is found exactly when the user key is stored and the name is among that user's keys. |
| `Storage.Insert` | bot/handlers/reminds/reminds.py:34-40 | Storing a new reminder appends `name -> record` to the end of the user's reminders, creating the user's map when it is missing. The reminder is then found, and every other user's reminders are unchanged, in order too. |
| `Storage.Forget` | bot/handlers/reminds/storage.py:46-47 | Deleting a reminder cuts exactly that pair out of the user's reminders, and the others keep their order. Every other user's reminders are unchanged. The user keys are unchanged too: the user's map is kept even when it becomes empty. |
| `Storage.EntriesLookup` | bot/handlers/reminds/storage.py:24-25 | The nested iteration over users and their reminders visits exactly the `(user, name, record)` triples the store holds. |
| `Storage.EntriesDistinct` | bot/handlers/reminds/storage.py:24-25 | The nested iteration never visits the same user and name twice. |
| `Storage.UserEntriesMember` | bot/handlers/reminds/storage.py:25 | The inner loop over one user's reminders visits `(user, name, record)` exactly when `name -> record` is one of that user's reminders. |
| `Storage.RestoreJob` | bot/handlers/reminds/storage.py:27-36 | A job is built exactly when the stored time and the user key both read as integers. It is for the reminder's user and name, fires at the hour and minute its time reads as, and sends to the chat its user key reads as. |
| `Storage.RestoreAll` | bot/handlers/reminds/storage.py:24-37 | Restoring never drops a job already registered, and adds at most one job per entry. |
| `Storage.RestoreAllKeys` | bot/handlers/reminds/storage.py:24-39 | Restoring registers exactly the saved ids of the records whose time and user key read as integers. Records that fail to read are skipped and the rest are still processed. Jobs under other ids are untouched. |
| `Storage.RestoreAllJobs` | bot/handlers/reminds/storage.py:27-37 | With distinct saved ids, each restorable record gets its own job, built from the hour and minute of its time, `int(user)` as chat, the user key and the name. |
| `Storage.Restore` | bot/handlers/reminds/storage.py:23-39 | Restoring never changes the store or its persisted copy. |
| `Storage.Startup` | bot/handlers/reminds/storage.py:8-20 | The store is the loaded document and the persisted copy is kept. Without a document the bot starts with an empty store and an empty scheduler. |
| `Storage.Fire` | bot/handlers/reminds/storage.py:42-51 | Firing never changes the scheduler. A failed send changes nothing and sends nothing. A successful send notifies the job's chat with the reminder text. If `(user, name)` is still stored, exactly that pair is cut out of the user's reminders (the others keep their order), every other user's reminders and the user keys are unchanged, and the store is saved. If it is absent, the state is unchanged. |
| `Reminds.Add` | bot/handlers/reminds/reminds.py:8-51 | A malformed command gets the format help and changes nothing. A duplicate name gets "already exists" and changes nothing. Otherwise exactly one fresh job is registered (the parsed hour and minute, the message's chat, user key and name) and every other job is kept. Exactly one record `name -> (time token verbatim, new job id)` is appended to the user's reminders, every other user's reminders are unchanged, and the store is saved. |
| `Reminds.Check` | bot/handlers/reminds/reminds.py:53-66 | The reply is "no active reminders" exactly when the user key is absent or maps to an empty map. Otherwise there is one line `⏰ name - time` per reminder, in insertion order. |
| `Reminds.Delete` | bot/handlers/reminds/reminds.py:68-87 | Without a name the reply is the name help. An unknown user or name gets "not found". In both cases nothing changes. Otherwise exactly the stored job id is cancelled, exactly that pair is cut out of the user's reminders (the others keep their order), every other user's reminders are unchanged, the user's map is kept and the store is saved. |
| `Reminds.ParseAdd` | bot/handlers/reminds/reminds.py:11-17 | A command is accepted exactly when `split(maxsplit=2)` gives three parts and the second reads as a time. Text of fewer than three words is refused. An accepted request's time token is the second part, contains no whitespace and reads as the request's hour and minute. Its name is the third part, non-empty and without leading whitespace. |
| `Reminds.Reply.Text` | bot/handlers/reminds/reminds.py:22-87 | A reply's text starts with the cross mark exactly for the four refusals: format help, already exists, name help and not found. |
| `Lifecycle.AddNeedsThreeWords` | bot/handlers/reminds/reminds.py:11-13 | `/add` text of fewer than three words gets the format help and leaves store, scheduler and persisted copy unchanged. |
| `Lifecycle.DeleteNeedsTwoWords` | bot/handlers/reminds/reminds.py:72-87 | `/delete` text of fewer than two words gets the name help and changes nothing. |
| `Lifecycle.AddCommandRoundTrip` | bot/handlers/reminds/reminds.py:11-17 | `<cmd> <h>:<m> <name>` is read as a request for `name` at `h:m`, with the time token kept as written and the name kept whole. |
| `Lifecycle.AddCommandToken` | bot/handlers/reminds/reminds.py:11-17 | A command word, any time token that reads and a name, with any whitespace before and between them, are read as a request for that name at the token's hour and minute. The token is kept as written. |
| `Lifecycle.AddCommandSpacing` | bot/handlers/reminds/reminds.py:11-17 | The same request is read whatever whitespace precedes the command or separates the words. |
| `Lifecycle.LeadingZerosTime` | bot/handlers/reminds/reminds.py:17 | `07:05` reads as hour 7 and minute 5. |
| `Lifecycle.AddLeadingZeros` | bot/handlers/reminds/reminds.py:11-17 | `/add 07:05 <name>` is accepted, with any spacing, as a request for 7:05 whose record keeps `07:05` as written. |
| `Lifecycle.SignedHourTime` | bot/handlers/reminds/reminds.py:17 | `+5:30` reads as hour 5 and minute 30, because `int` accepts a leading plus sign. |
| `Lifecycle.ConsistentIdsDistinct` | bot/handlers/reminds/reminds.py:25-40 | When every reminder has its job, no two reminders share a job id. |
| `Lifecycle.AddKeepsConsistent` | bot/handlers/reminds/reminds.py:25-41 | `/add` keeps every stored reminder paired with its own live job, at its stored time. |
| `Lifecycle.ForgetKeepsConsistent` | bot/handlers/reminds/reminds.py:78-80 | Removing one stored reminder together with its own job keeps every other reminder paired with its live job. |
| `Lifecycle.DeleteKeepsConsistent` | bot/handlers/reminds/reminds.py:78-81 | `/delete` keeps every remaining reminder paired with its own live job. |
| `Lifecycle.FireKeepsConsistent` | bot/handlers/reminds/storage.py:46-48 | Firing keeps every remaining reminder paired with its own live job. |
| `Lifecycle.DeleteCancelsOwnJob` | bot/handlers/reminds/reminds.py:78 | In a consistent state the job `/delete` cancels exists. It is gone afterwards and the scheduler is exactly one job smaller. |
| `Lifecycle.StartupConsistent` | bot/handlers/reminds/storage.py:23-37 | Startup from a document whose records all read back, with distinct job ids, pairs every reminder with its job again. |
| `Lifecycle.ConsistentRestorable` | bot/handlers/reminds/storage.py:23-37 | A store in which every reminder has its job, and whose user keys read as integers, restores cleanly: every time reads and the saved job ids are distinct. |
| `Lifecycle.RestartConsistent` | bot/handlers/reminds/storage.py:8-37 | Restarting from what the handlers saved gives back the same store, with every reminder paired with its job again. |
| `Lifecycle.AddKeepsNumericKeys` | bot/handlers/reminds/reminds.py:19-40 | `/add` only ever adds the user key `str(user id)`, which reads back as an integer, so user keys keep reading as integers, as restore needs. |
| `Lifecycle.RemovalsKeepNumericKeys` | bot/handlers/reminds/reminds.py:78-80 | `/delete` (here) and firing (the record removal at storage.py:46-47) keep user keys reading as integers: neither adds a user key. |
| `Lifecycle.StartupRestoresRecord` | bot/handlers/reminds/storage.py:27-36 | At startup a stored reminder gets its job under its saved id, at the hour and minute of its saved time, with args `(int(user), user, name)`. |
| `Lifecycle.StartupJobIds` | bot/handlers/reminds/storage.py:24-39 | At startup the registered ids are exactly the saved ids of the records that read back. |
| `Lifecycle.RestoredChatIsUser` | bot/handlers/reminds/storage.py:34 | After a restart a reminder of user `id` is sent to chat `id`, whatever chat it was created in. |
| `Lifecycle.AddThenDelete` | bot/handlers/reminds/reminds.py:25-81 | `/delete name` right after a successful `/add` of that name gives back the same reminders and the same scheduler. |
| `Lifecycle.CheckAfterAdd` | bot/handlers/reminds/reminds.py:34-66 | After a successful `/add`, `/check` lists the earlier lines followed by the new reminder's line. |
| `Lifecycle.CheckAfterDelete` | bot/handlers/reminds/reminds.py:57-80 | After a successful `/delete`, `/check` lists the earlier lines in the same order, without the deleted reminder's line. It answers "no active reminders" when that line was the only one. |
| `Lifecycle.CheckListsEveryReminder` | bot/handlers/reminds/reminds.py:61-66 | Every stored reminder of the user appears in `/check` with its time. |
| `Lifecycle.CheckLineIsReminder` | bot/handlers/reminds/reminds.py:61-66 | Every `/check` line is a stored reminder of the user with its time. |
| `Lifecycle.FireLeavesOrphanJob` | bot/handlers/reminds/storage.py:42-51 | After a reminder fires, its daily job is still registered and unchanged, but no record refers to it. `/delete` of the name then answers "not found" and changes nothing. |
| `Lifecycle.StaleJobDropsNewRecord` | bot/handlers/reminds/storage.py:46-48 | Suppose a leftover job still exists for a name and the user adds that name again. When the old job fires, it removes the new record, and the new job stays registered. |

## Left out

- Transport: the aiogram dispatch and the replies as network sends are left out. Each reply is a `Reply` value and each notification a `Notice` value. The `/start` handler, the echo handler (with its message deletion and delay) and the error handler in `bot/handlers/user/users.py` are left out too. They only move messages and do not touch the reminder state.
- Bootstrap and logging: `bot/run.py`, `bot/__init__.py` and `bot/logs/logging_config.py` are left out. `Storage.Startup` stands in for the load at import followed by `restore_reminders`. Logged errors are modelled only as skipped records.
- Persistence: JSON encoding and file I/O are left out. `Save` overwrites a snapshot and `Load` returns the snapshot or the empty store. A corrupt document or a failed write cannot be expressed.
- Records are always well-formed: a record lacking its `time` or `job_id` field (a `KeyError` during restore) cannot be expressed.
- Scheduler internals are left out: computing the next cron firing, the fixed timezone and when jobs actually run.
- Reminds.Add: the new job id is an input, required to be absent from the scheduler. This stands for the library's id generator, which draws fresh random ids.
- Reminds.Add: hour and minute are not range-checked. The library's cron trigger rejects out-of-range values with a `ValueError`, which the handler would answer with the format help. The model registers any integer pair instead.
- Storage.RestoreAll: an out-of-range hour or minute is likewise restored instead of being rejected and skipped. Two records sharing a saved job id make the later one overwrite the earlier. The library would refuse the duplicate id when the scheduler starts. `Lifecycle.Restorable` (distinct ids) excludes that case.
- Scheduler.RemoveJob: cancelling an unknown id is a no-op, while the library raises an error that aborts `/delete`. `Lifecycle.DeleteCancelsOwnJob` shows that the id is always registered in a consistent state, so the two agree there.
- Decimal.ParseInt: `int()` is modelled as an optional sign and ASCII digits. Python also accepts surrounding whitespace, underscores between digits and non-ASCII decimal digits. None of these are modelled.
- Text.IsSpace: only the characters for which Python's `str.isspace` is true are listed. The `Command` filter that routes `/add`, `/check` and `/delete` is not modelled, and the first word of the text is never examined.
- Concurrency: each command handler and each firing is one atomic step. Interleavings inside a handler are not modelled.
