# LegendsBot event store, reminder tick and task list, in Dafny

LegendsBot is a Discord bot. It has two list-keeping parts, and this project models both.

- **The JavaScript event store.** `data.json` holds an ordered list of `{title, time}` records.
  - `/add` appends a record.
  - `/remove` drops every record with the given title.
  - `/list` renders one line per record.
  - A cron callback runs once a minute. It reminds a channel of every event that starts strictly within the next 60 000 ms.
- **The Python task list.** An in-memory module-level list of strings, used by three cogs:
  - `add` appends.
  - `remove` deletes the first occurrence.
  - `list` renders a header and bullet lines.

Modules:

- `Sequences` (sequences.dfy): `Filter`, the model of `Array.prototype.filter`. It comes with lemmas for subsequence (`Embeds` over explicit kept positions), idempotence, narrowing, concatenation and counting.
- `Text` (text.dfy): `Join` (`join('\n')`) and `Split`. The round-trip lemma `SplitJoin` lets the rendered replies be stated line by line.
- `Events` (events.dfy): the `Event` record and the class `DataFile`.
  - `DataFile`'s `events` field stands for the file. `/add` and `/remove` read the whole file and write it back, so they reassign the field as a whole. `/list` only reads the file (commands/list.js:42).
  - `/add` and `/remove` are methods of `DataFile`. `/list` is the pure function `ListReply`.
- `Scheduler` (scheduler.dfy): the callback body.
  - The due-window predicate and `DueSet`.
  - The send loop `SendReminders`, which returns the messages it sends and whether a rejected fetch ended it.
  - `Tick`, which reads a `DataFile` and has no `modifies` clause.
- `TaskList` (tasks.dfy): the class `Tasks` for the shared Python list, plus `RemoveFirst` (`list.remove`) and `ListTasksReply`.

Abstractions:

- **Stored time.** An event's `time` stays the user's raw text, because `/add` stores it and `/list` prints it verbatim.
- **Date parsing.** The scheduler takes a parser `parse: string -> Option<int>` as a parameter. It stands for `new Date(e.time)` in milliseconds, and `None` stands for NaN. Every comparison with NaN is false, so `InWindow(None, now)` is false.
- **Clock.** The clock reading `now` is a parameter of `Tick`.
- **Channel lookup.** `await client.channels.fetch` runs inside the loop, once per due event. Its outcome for iteration `i` is the parameter `lookups[i]`, one of three values:
  - `Channel`: a channel was found, and the reminder is sent.
  - `NoChannel`: nothing was found, so `if (channel)` skips the send and the loop goes on.
  - `Rejected`: the promise rejected, which throws out of the loop and ends the callback.
- **Outbox.** The sent messages are returned as a sequence, together with a flag saying whether a rejected fetch ended the loop. There is one message per iteration before the first rejection whose lookup found a channel, in due-set order.

Facts about the source that the model keeps:

- `/add` checks nothing: any title and any time text is stored as given, duplicates included (commands/add.js:52-56).
- A record has only `title` and `time`.
- Nothing records that a reminder went out. Every tick that finds a record in the window reminds it again.
- The window is open at both ends: `diff > 0 && diff < 60000` (scheduler.js:26).
- `ConsecutiveTicks` states a consequence of the open window. Two ticks exactly 60 000 ms apart both skip an event that starts exactly at the second tick's instant.

## Model

| member | source | states |
|---|---|---|
| Sequences.Filter | commands/remove.js:72 | the result is no longer than the input and holds exactly the input's elements that satisfy the predicate (the shape of `Array.filter`) |
| Sequences.KeptIndicesExact | scheduler.js:24-27 | the kept positions are increasing, and they are exactly the positions whose element satisfies the predicate, so identical records at two positions are both kept |
| Text.Join | commands/list.js:56 | `join` of no lines is empty; otherwise the text starts with the first line and ends with the last |
| Text.SplitJoin | commands/list.js:56 | when no line contains the separator, splitting the `join`ed text at the separator gives back exactly the joined lines |
| Events.DataFile.Add | commands/add.js:51-59 | the stored list becomes the old list with `{title, time}` appended, with no validation; the reply echoes title and time in the source's text |
| Events.DataFile.Remove | commands/remove.js:46-92 | the stored list becomes the filtered old list, written back even when nothing matched; the reply is "not found" exactly when no stored record had the title, and the list is then unchanged; otherwise the reply is the removed reply naming the title |
| Events.AddAppends | commands/add.js:56 | `push` grows the list by one, keeps every earlier record at its position, and puts the new record last, even when it is a duplicate |
| Events.RemoveFilters | commands/remove.js:72 | no survivor has the removed title, and every record with another title survives; the survivors are the old list at increasing positions, exactly the positions whose title differs |
| Events.RemoveKeepsOtherTitles | commands/remove.js:72 | for any other title `u`, the records titled `u` are the same and in the same order before and after the removal |
| Events.RemoveIdempotent | commands/remove.js:72 | removing a title twice leaves the same list as removing it once |
| Events.RemoveNotFoundExactly | commands/remove.js:65-85 | the length is unchanged exactly when no record had the title, and in that case the rewritten list equals the original |
| Events.RemoveCount | commands/remove.js:65-91 | `originalLength - newLength` equals the number of records with the title, and is at least 1 when any record had it |
| Events.ListReply | commands/list.js:48-56 | the reply is `No events found.` exactly when the list is empty; otherwise it starts with the first record's line and ends with the last record's line |
| Events.ListLines | commands/list.js:56 | a non-empty reply splits at `\n` into exactly one `• **title** at time` line per record, in store order, so there are n-1 separators and no trailing newline (given no newline inside titles or times) |
| Events.AddThenList | commands/list.js:48-56 | after an add, the list reply is the earlier reply plus `\n` plus the new record's line, or just that line when the list was empty |
| Scheduler.InWindow | scheduler.js:25-26 | the window test `diff > 0 && diff < 60000`, false for an unparsable time; it has no contract of its own, and `WindowEdges` and `DueSetExact` state its properties |
| Scheduler.DueSet | scheduler.js:24-27 | the due set is no longer than the stored list and holds exactly the stored records that are in the window |
| Scheduler.DueSetExact | scheduler.js:24-27 | an event is due exactly when it is stored and its parsed time `t` satisfies `now < t < now + 60000`; the due set is the stored list at increasing positions, exactly the in-window positions |
| Scheduler.WindowEdges | scheduler.js:24-27 | an event 59999 ms ahead is due; one exactly 60000 ms ahead, one at or before `now`, and one whose time does not parse are not |
| Scheduler.ConsecutiveTicks | scheduler.js:11-27 | for two ticks one window apart: an event strictly inside the first window is due only at the first tick; one strictly inside the second window only at the second; one exactly at the second tick's instant at neither |
| Scheduler.FirstRejected | scheduler.js:29-31 | the loop's stopping point: no earlier lookup was rejected, and the lookup at that point was rejected unless it is the end |
| Scheduler.Delivered | scheduler.js:29-31 | at most one message per iteration that ran |
| Scheduler.Reminders | scheduler.js:29-32 | at most one message per iteration before the first rejected lookup |
| Scheduler.SendReminders | scheduler.js:29-32 | the loop sends `Reminders` of the due events and stops at the first rejected fetch; the flag reports exactly whether some fetch was rejected |
| Scheduler.Tick | scheduler.js:12-32 | a tick sends exactly `Reminders` of the due set of the stored list and reports a rejected fetch; it has no `modifies` clause, so it never changes the store |
| Scheduler.DeliveredExact | scheduler.js:29-31 | over iterations that all ran, message k is the reminder for the event at the k-th position whose lookup found the channel |
| Scheduler.RemindersExact | scheduler.js:29-32 | the number of messages is the number of positions before the first rejection whose lookup found the channel; those positions are listed in increasing order, and message k is the reminder for the event at the k-th of them |
| Scheduler.RejectionStopsLoop | scheduler.js:30 | if the fetch of iteration j is rejected, at most j messages go out, and none of them is for an event at position j or later |
| Scheduler.RemindersAllDelivered | scheduler.js:29-31 | when every lookup finds the channel, message i is the reminder for due event i, so records with the same title each get their own reminder |
| Scheduler.RemindersNoChannel | scheduler.js:30-31 | when no lookup finds a channel, nothing is sent |
| Scheduler.EveryDueRecordReminded | scheduler.js:24-31 | when every lookup finds the channel, message k is the reminder for the stored record at the k-th in-window position, so identical stored records each get a reminder |
| TaskList.FirstIndex | commands/remove.py:11 | the position returned holds the task and no earlier position does |
| TaskList.RemoveFirst | commands/remove.py:10-11 | an absent task leaves the list unchanged; a present one shortens it by exactly one, and the multiset loses exactly one copy of the task |
| TaskList.RemoveFirstCuts | commands/remove.py:11 | removal cuts exactly the first occurrence: the elements before and after it stay, in order |
| TaskList.RemoveFirstKeepsDuplicates | commands/remove.py:11 | one copy of the task goes, later duplicates remain, and the count of every other text is unchanged |
| TaskList.Tasks.constructor | commands/add.py:3 | the shared list starts empty |
| TaskList.Tasks.Add | commands/add.py:10-12 | the task is appended at the end, duplicates included; the reply echoes it |
| TaskList.Tasks.Remove | commands/remove.py:9-14 | after the membership test the list loses the first occurrence and the reply names the task; an absent task leaves the list unchanged and the reply is `Task not found.` |
| TaskList.ListTasksReply | commands/list.py:10-13 | the reply is `No tasks saved.` exactly when the list is empty; otherwise it starts with `Saved tasks:` and a newline and ends with the last task's bullet |
| TaskList.ListTasksLines | commands/list.py:13 | a non-empty reply splits at `\n` into the header `Saved tasks:` followed by one `- t` line per task, in order, so there are `len(tasks)` bullet lines (given no newline inside a task) |

## Left out

- Discord client setup, login and reply delivery: network I/O through a foreign library. The replies are returned as strings.
- Slash-command and cog registration, and `deploy-commands.js`: library and REST plumbing.
- The missing imports in commands/remove.js: `SlashCommandBuilder` and `fs` are used without being imported. This is a module-loading defect, not a logic defect, and the model assumes the module loads.
- The cron schedule and the wall clock: `now` is a parameter, and each call of `Tick` is one callback run.
- Date-string parsing: `new Date(e.time)` is the `parse` parameter. The `YYYY-MM-DD HH:mm` grammar and time zones are not modelled.
- JSON serialisation and file reads and writes: the file is the `events` field, and a write followed by a read is assumed to return the same list. Malformed file content, which makes `JSON.parse` throw, is not modelled.
- Concurrency: commands and ticks racing on `data.json` are not modelled. Each operation is one uninterrupted step.
- Sending: `channel.send` is not awaited in the source, and a failed send is not modelled; every send to a found channel counts as sent.
- Why a fetch is rejected: the reasons (an unknown or unset `REMINDER_CHANNEL_ID`, a network error) are not modelled. Only the outcome is, as `Rejected`, which ends the loop with the rest of the due events unreminded.
- commands/scheduler.py: it sends a fixed message every minute and has no logic to model.
- Events.ListLines: the one-line-per-record statement assumes no title or time contains a newline. A newline inside a title would split that record's line.
- TaskList.ListTasksLines: the header-plus-bullets statement assumes no task contains a newline, for the same reason.
