# Team task bot: the per-chat task registry

A Dafny model of the task registry behind a Telegram group bot. The bot keeps
one table of tasks (`Task`: id, chat, description, status, timestamp,
creator, duration). Its command handlers work on that table:

- `/addtask <words>` appends a pending task stamped with the chat, the
  sender's identity and the current time.
- `/listtasks` shows the chat's tasks from today, numbered from 1.
- `/done N` marks the chat's `N`-th task done. Only its creator may do this.
  The handler stores the elapsed time as text.
- The free-text reminder handler extracts the task text from a message.

Modules, one file each:

- `Wrappers` (`wrappers.dfy`): `Option`.
- `PyStr` (`pystr.dfy`): the Python string built-ins the handlers use. These
  are `isspace`, `strip`, `" ".join`, `replace(phrase, "")` (one
  left-to-right pass) and `split('.')[0]`.
- `PyInt` (`pyint.dfy`): `str()` of an integer, zero padding, and `int()` on a
  string. `int()` accepts a sign and underscores between digits, surrounded by
  the whitespace `int()` skips: ASCII space, `\t`, `\n`, `\v`, `\f`, `\r` and
  non-ASCII whitespace, but not the separators U+001C..U+001F. It returns
  `None` where Python raises `ValueError` for a malformed literal; the limit
  on the number of digits is not modelled (see "Left out").
- `Timedelta` (`timedelta.dfy`): `str(timedelta)` in its full form
  `[-]D day[s], H:MM:SS[.ffffff]`, with days rounded down. Also the
  duration text `/done` stores, which is that string cut at its first `.`.
- `Registry` (`registry.dfy`): the `Task` row and identity resolution. It
  also holds the WHERE-clause selections, today's window, the listing,
  the `/done` decision, the completed row and the reminder-text extraction.
- `Bot` (`bot.dfy`): the class `TaskStore`, which holds the table as a
  sequence field. Each handler is one method that returns its reply. The
  invariant `Valid` says three things. Row `i` has id `i + 1`. Every row
  has a creator. A row has a duration exactly when it is done.

Time is an integer count of microseconds of naive local time, counted from
0001-01-01 00:00 as `datetime` counts, so a multiple of a day is a midnight.
Today's window is `[now / D * D, now / D * D + D - 1]`, where `D` is the number of
microseconds in a day. The queries have no ORDER BY, so rows are assumed to
come back in insertion order.

Behaviour the model keeps that a reader may not expect:

- An empty description is detected without trimming, so a description of
  only spaces would be accepted. python-telegram-bot splits a command's
  arguments with `str.split()`, so no argument holds a space and a real
  `/addtask` cannot produce such a description.
- A listing line shows a pending task's missing duration as `(None)`.
- Marking an already-done task is not refused. It is re-marked and its
  duration is re-stamped (`Registry.DoneIgnoresStatus`).
- The phrase removal is case-sensitive and makes a single pass
  (`Registry.ExtractLowerCase`, `Registry.ExtractSinglePass`).
- `/listtasks` numbers today's tasks only. `/done` numbers all of the chat's
  tasks (`Registry.OrdinalsDisagreeAcrossDays`).

## Model

| member | source | states |
|---|---|---|
| Registry.ResolveIdentity | main.py:78-82 | the username when it is non-empty; otherwise a stripped name no longer than first + space + last |
| Registry.IdentityWithoutLastName | main.py:80-82 | with no username and no last name, the identity is the stripped first name; the trailing space is dropped |
| Registry.IdentityFullName | main.py:78-82 | with no username, clean first and last names give `first last` |
| PyStr.Strip | main.py:81 | `strip()` leaves no whitespace at either end |
| PyStr.StripIsBordered | main.py:81 | `strip()` returns an infix of its input with only whitespace on either side |
| PyStr.StripUnique | main.py:81 | any infix with whitespace around it and none at its ends is what `strip()` returns |
| PyStr.StripIgnoresTrailingSpace | main.py:80-81 | appending whitespace does not change what `strip()` returns |
| PyStr.StripOfStripped | main.py:81 | a string with no whitespace at its ends is its own `strip()` |
| PyStr.Join | main.py:71 | a single word is the description as it is; otherwise the text starts with the first word followed by the separator |
| PyStr.JoinIsEmpty | main.py:71-72 | `" ".join(args)` is empty exactly when there are no words or one empty word |
| Bot.TaskStore.constructor | main.py:38-41 | the table starts empty and valid |
| Bot.TaskStore.AddTask | main.py:70-87 | an empty description gives the ask-for-description reply and no change; otherwise exactly one pending row with the next id, the chat, the description, `now` and the resolved creator is appended, the reply names creator and description, and the invariant is kept |
| Registry.FilterAppend | main.py:84-86 | an appended row is selected after every earlier row, and only when it matches |
| Registry.ChatTasksAppend | main.py:84-86 | a new row joins the end of its own chat's list and leaves every other chat's list as it was |
| Registry.AddedTaskListedLast | main.py:84-101 | a task added at `now` is the last of its chat's tasks for `now`'s day |
| Registry.NowIsToday | main.py:93-100 | `now` lies in its own day's window |
| Registry.DayStart | main.py:94 | `today_start` is a midnight, at most `now` and less than a day before it |
| Registry.DayEnd | main.py:95 | `today_end` is the last microsecond before a midnight, at least `now` and less than a day after it |
| Registry.InToday | main.py:93-100 | a timestamp is in today's window exactly when it falls on the same day as `now` |
| Registry.Filter | main.py:97-101 | a `.filter(...)` query (and the `.filter_by(...)` of main.py:120) returns no more rows than the table holds; `Registry.FilterMember` says which rows |
| Registry.ChatTasks | main.py:120 | the chat's rows are exactly the rows of the table whose chat is this one |
| Registry.TodaysTasks | main.py:97-101 | the listing query returns exactly the chat's rows whose timestamp is in today's window |
| Registry.FilterMember | main.py:97-101 | a row is selected exactly when it is in the table and matches the WHERE clause |
| Registry.FilterFilter | main.py:97-101 | selecting by one condition and then another equals selecting by both |
| Registry.FilterAll | main.py:97-101 | a selection that every row passes returns the table unchanged |
| Registry.TodaysTasksOfChat | main.py:97-101 | the listing's rows are the chat's rows narrowed to today, in the same order |
| Registry.NothingTodayIff | main.py:97-104 | the selection is empty exactly when no row of the chat lies in today's window |
| Registry.StatusText | main.py:131 | the body is the text of the `status` column: `"done"` as main.py:131 writes it, `"pending"` as main.py:84 writes it |
| Registry.StatusTextDistinct | main.py:131 | the two status texts differ, so the column tells a pending task from a done one |
| Registry.Show | main.py:107 | the body is how an f-string renders a nullable column: the value, or `None` (also the creator in the refusal of main.py:128) |
| Registry.ListingLine | main.py:107 | the body is the f-string of a listing line: ordinal, description, status, duration and creator; `Registry.ListingLineNumber` reads its ordinal back |
| Registry.ListingLineNumber | main.py:107 | the number a listing line starts with, cut at its first `.` and read by `int()`, is the line's ordinal |
| Bot.TaskStore.ListedDurationIffDone | main.py:97-107 | in a valid table, every task the listing shows has a duration exactly when it is done |
| Registry.Text | main.py:87-136 | the reply for an added task ends with the description, the refusal ends with the recorded creator and a full stop, and the completion reply ends with the time taken |
| Registry.ListTasks | main.py:97-108 | "no tasks for today" exactly when no row of the chat is from today; otherwise one line per such row in table order, numbered 1..n |
| Bot.TaskStore.ListTasks | main.py:90-108 | the reply is the listing of the current table, and it is "no tasks" exactly when the chat has no task from today |
| PyInt.IntStr | main.py:107 | `str()` of an int starts with `-` exactly when the number is negative; the rest is `NatStr` of its magnitude |
| PyInt.NatStr | main.py:107 | `str(i+1)` is decimal digits, with no leading zero, that read back as the number |
| Registry.OrdinalsAgreeWhenAllToday | main.py:97-125 | when all of the chat's tasks are from today, the listing and `/done` number them alike |
| Registry.OrdinalsDisagreeAcrossDays | main.py:97-125 | with tasks from yesterday and today, the listing shows today's task as 1 but `/done 1` picks yesterday's |
| PyStr.IsSpace | main.py:81 | the body is the set of characters `str.isspace()` accepts, which `strip()` removes |
| PyInt.IsIntSpace | main.py:119 | the body is the set of characters `int()` skips around a literal |
| PyInt.IntSpaceIsSpace | main.py:119 | every character `int()` skips is `isspace()` whitespace, and the only `isspace()` characters it does not skip are U+001C..U+001F |
| PyInt.IntStrip | main.py:119 | the text `int()` reads has none of the whitespace it skips at either end |
| PyInt.ParseInt | main.py:119 | `int()` accepts only text that, without the whitespace it skips, starts with a digit or sign and ends with a digit; blank text raises `ValueError` |
| PyInt.ParseIntSkipsOnlyIntSpace | main.py:119 | `int(" 5\n")` is 5 while `int("\x1c5")` raises `ValueError` |
| PyInt.ParseIntStr | main.py:119 | `int()` reads back `n` from the text `IntStr` writes for `n`, for every integer |
| PyInt.ParseIntNeedsDigit | main.py:119 | `int()` of text with no digit raises `ValueError` |
| Registry.DecideDone | main.py:118-129 | a missing, non-integer or out-of-range ordinal (outside 1..n over all the chat's tasks) is refused; otherwise the task is completed exactly when the caller created it, and the refusal names its creator |
| Registry.DoneSelectsOrdinal | main.py:119-129 | `/done k` with 1 <= k <= n picks the chat's k-th task, whatever its status |
| Registry.DoneRejectsOutOfRange | main.py:119-123 | `/done k` with k outside 1..n is refused as an invalid number |
| Registry.CanComplete | main.py:127 | a task with no recorded creator can be completed by nobody; otherwise only by its creator |
| Registry.UncreatedNeverCompleted | main.py:127-129 | a task with no recorded creator is never completed, whoever asks |
| Registry.DoneIgnoresStatus | main.py:125-131 | rewriting a task's status and duration does not change what `/done` decides |
| Bot.CreatorCanComplete | main.py:113-129 | the sender who created the chat's k-th task can always complete it with `/done k` |
| Registry.NthIndex | main.py:120-125 | the k-th row of the chat's list is a row of the table that belongs to the chat |
| Registry.FilterUpdate | main.py:125-135 | writing the chat's k-th row back in place replaces the k-th entry of the chat's list and nothing else |
| Registry.Elapsed | main.py:132 | the body is `datetime.now() - task.timestamp` in microseconds; `Timedelta.ElapsedTextSign` states its sign in the stored text |
| Registry.Completed | main.py:131-133 | the written row is done, has a duration and keeps every other column |
| Registry.CompletedDuration | main.py:131-133 | the stored duration is `str()` of the elapsed time rounded down to whole seconds, and it contains no `.` |
| Bot.TaskStore.MarkDone | main.py:111-141 | a refusal leaves the table unchanged with the matching reply; a completion replaces only the selected row and that row's entry in the chat's list; no status goes back from done, and the invariant is kept |
| PyStr.BeforeFirst | main.py:133 | `split('.')[0]` is the longest prefix without `.` |
| PyStr.BeforeFirstAppend | main.py:133 | a prefix without the separator passes through `split(sep)[0]` unchanged |
| Timedelta.TimedeltaStr | main.py:132-133 | `str(timedelta)` is never empty; it starts with `-` for a negative span and with a digit otherwise |
| Timedelta.ElapsedText | main.py:133 | the stored text is a prefix of `str(timedelta)` that contains no `.` |
| Timedelta.ElapsedTextSign | main.py:132-133 | the stored text is never empty and starts with `-` exactly when the task's timestamp is later than `now` |
| Timedelta.ElapsedTextShape | main.py:132-133 | the stored text is the day count and the clock reading of the elapsed time, without the fraction |
| Timedelta.ElapsedTextIsWholeSeconds | main.py:132-133 | the stored text equals `str()` of the elapsed time rounded down to whole seconds |
| Timedelta.ElapsedTextWithinDay | main.py:132-133 | under a day, the stored text is `H:MM:SS` |
| Timedelta.ElapsedTextNegative | main.py:132-133 | a timestamp up to a day in the future gives `-1 day, H:MM:SS` |
| PyInt.ZeroPad | main.py:133 | `%02d`-style padding is at least the width and reads back as the number |
| PyStr.RemoveAll | main.py:161 | `replace` never lengthens the text |
| PyStr.RemoveAllShortens | main.py:161 | `replace` shortens the text whenever the phrase occurs |
| PyStr.RemoveAllAtFirst | main.py:161 | `replace` keeps the text before the leftmost occurrence, drops that occurrence and goes on with the text after it |
| PyStr.RemoveAllKeepsClear | main.py:161 | a prefix in which no occurrence starts passes through `replace` unchanged |
| PyStr.FirstOccurrence | main.py:161 | a phrase that occurs has a leftmost occurrence |
| PyStr.RemoveAllUnchanged | main.py:161 | `replace` leaves the text unchanged exactly when the phrase does not occur |
| Registry.ExtractTaskText | main.py:161 | the extracted text has no surrounding whitespace and is no longer than the message |
| Registry.ExtractWithoutPhrase | main.py:161 | a message without the phrase is only stripped |
| Registry.ExtractWithPhrase | main.py:161 | when the phrase occurs, the task text is the stripped join of the text before its leftmost occurrence and what `replace` makes of the text after it |
| Registry.ExtractPlainReminder | main.py:161 | `Remind me to call mom` gives `call mom` |
| Registry.ExtractLowerCase | main.py:161 | the match is case-sensitive: `remind me to call mom` is kept whole |
| Registry.ExtractSinglePass | main.py:161 | removing one occurrence can form a new one, which stays |
| Bot.TaskStore.SmartTask | main.py:157-172 | an unparsable time gives the could-not-parse reply; a parsed time ends in the runtime failure at line 163, with no reply; the table never changes |

## Left out

- PyStr.RemoveAll: its own contract bounds the length only; which text `replace` removes is stated by `PyStr.RemoveAllAtFirst` and `PyStr.RemoveAllUnchanged`.
- Registry.ExtractTaskText: its own contract gives only the shape of the result; what it returns is stated by `Registry.ExtractWithPhrase` and `Registry.ExtractWithoutPhrase`.
- Telegram I/O (updates, `reply_text`, `send_message`, handler registration): replies are return values; `Registry.Text` gives the exact text of each.
- The SQLAlchemy engine, session and commits: the table is an in-memory sequence that starts empty, as with a fresh `tasks.db`; rows a persisted database already holds are not modelled. Row order is insertion order, an assumption because the queries have no ORDER BY.
- `joined_chats` and `/start`: a write-only set with no behaviour.
- `schedule_msg` and the APScheduler jobs: library calls with background-thread concurrency. `schedule_msg` always fails anyway, at `context.args[0]` or at `datetime.datetime.strptime` (main.py:145-146).
- `dateparser.parse` is a foreign parser; its result is the `parsedTime` parameter of `Bot.TaskStore.SmartTask`.
- Bot.TaskStore.SmartTask: the success path that would add a task and schedule a reminder is not modelled. It calls `datetime.datetime.now()` on the class, which raises `AttributeError` before any write.
- The OpenAI features (`ask_gpt`, `gpt_task`, `gpt_motivate`, `gpt_report`): network calls with opaque output.
- The generic `except Exception` branch of `mark_done`: the modelled steps raise nothing besides the `IndexError`/`ValueError` that are modelled. Database failures are not modelled.
- PyInt.ParseInt: the limit of 4300 digits that CPython (3.11 on, and patched 3.7-3.10) puts on `int()` of a string, leading zeros included, is not modelled; past it Python raises `ValueError` where the model returns a number. `PyInt.IntStr` likewise omits the same limit on `str()`. `/done` never meets either: its argument comes from a Telegram message of at most 4096 characters, and the ordinals it writes are far shorter.
- `int()` on non-ASCII digits (Arabic-Indic and other Unicode decimals): only ASCII digits are accepted.
- `datetime` limits (years 1..9999) and time zones: time is an unbounded integer count of local microseconds.
