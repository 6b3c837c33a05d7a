/**
 * The per-chat task registry behind the bot's commands: the `Task` row, who
 * counts as a task's creator, which tasks a chat sees, how `/done N` picks a
 * task, and the replies the handlers send.
 *
 * Times are integers: microseconds of the naive local time `datetime.now()`
 * returns, counted from 0001-01-01 00:00 as `datetime` counts, so a multiple
 * of a day is a midnight. Rows are kept in insertion order, which is the order the queries
 * are assumed to return them in (they have no ORDER BY).
 */
module Registry {
  import opened Wrappers
  import opened PyStr
  import opened PyInt
  import opened Timedelta

  datatype Status = Pending | Done

  /** The value stored in the `status` column. */
  function StatusText(s: Status): string {
    match s
    case Pending => "pending"
    case Done => "done"
  }

  /** The `status` column tells the two statuses apart. */
  lemma {:induction false} StatusTextDistinct(a: Status, b: Status)
    ensures StatusText(a) == StatusText(b) <==> a == b
  {
  }

  /** One row of the `tasks` table; `createdBy` and `duration` are nullable columns. */
  datatype Task = Task(
    id: nat,
    chatId: string,
    description: string,
    status: Status,
    timestamp: int,
    createdBy: Option<string>,
    duration: Option<string>)

  /** The sender of a command, as Telegram describes them. */
  datatype User = User(username: Option<string>, firstName: string, lastName: Option<string>)

  /** Python's `s or ""` for a string that may be None. */
  function OrEmpty(s: Option<string>): string {
    if s.Some? then s.value else ""
  }

  /** How an f-string renders a nullable column: None shows as `None`. */
  function Show(s: Option<string>): string {
    if s.Some? then s.value else "None"
  }

  /**
   * The identity a task is stamped with and compared against: the handle when
   * there is a non-empty one, else `f"{first_name} {last_name or ''}".strip()`.
   */
  function ResolveIdentity(u: User): (r: string)
    ensures OrEmpty(u.username) != "" ==> r == u.username.value
    ensures OrEmpty(u.username) == "" ==> IsStripped(r) && |r| <= |u.firstName| + 1 + |OrEmpty(u.lastName)|
  {
    var fullName := Strip(u.firstName + " " + OrEmpty(u.lastName));
    if OrEmpty(u.username) != "" then u.username.value else fullName
  }

  /** Without a handle or a last name, the identity is the stripped first name. */
  lemma {:induction false} IdentityWithoutLastName(u: User)
    requires OrEmpty(u.username) == "" && OrEmpty(u.lastName) == ""
    ensures ResolveIdentity(u) == Strip(u.firstName)
  {
    assert u.firstName + " " + OrEmpty(u.lastName) == u.firstName + " ";
    StripIgnoresTrailingSpace(u.firstName, " ");
  }

  /** Without a handle, clean first and last names are joined by one space. */
  lemma {:induction false} IdentityFullName(u: User)
    requires OrEmpty(u.username) == ""
    requires u.firstName != "" && IsStripped(u.firstName)
    requires OrEmpty(u.lastName) != "" && IsStripped(OrEmpty(u.lastName))
    ensures ResolveIdentity(u) == u.firstName + " " + u.lastName.value
  {
    var s := u.firstName + " " + u.lastName.value;
    assert s[0] == u.firstName[0] && s[|s| - 1] == u.lastName.value[|u.lastName.value| - 1];
    StripOfStripped(s);
  }

  /** Only a task's creator may mark it done; a task with no recorded creator has none. */
  predicate CanComplete(t: Task, actor: string)
    ensures t.createdBy.None? ==> !CanComplete(t, actor)
    ensures CanComplete(t, actor) ==> actor == t.createdBy.value
  {
    t.createdBy == Some(actor)
  }

  // ---------------------------------------------------------------------------
  // Selecting rows

  /** The rows a query with a WHERE clause returns, in table order. */
  function Filter(s: seq<Task>, p: Task -> bool): (r: seq<Task>)
    ensures |r| <= |s|
  {
    if s == [] then [] else (if p(s[0]) then [s[0]] else []) + Filter(s[1..], p)
  }

  /** A row is selected exactly when it is in the table and satisfies the WHERE clause. */
  lemma {:induction false} FilterMember(s: seq<Task>, p: Task -> bool, x: Task)
    ensures x in Filter(s, p) <==> x in s && p(x)
  {
    if s != [] {
      FilterMember(s[1..], p, x);
      assert s == [s[0]] + s[1..];
    }
  }

  lemma {:induction false} FilterMembers(s: seq<Task>, p: Task -> bool)
    ensures forall x :: x in Filter(s, p) <==> x in s && p(x)
  {
    forall x {
      FilterMember(s, p, x);
    }
  }

  /** A new row is selected after all the rows that were there before it. */
  lemma {:induction false} FilterAppend(s: seq<Task>, x: Task, p: Task -> bool)
    ensures Filter(s + [x], p) == Filter(s, p) + (if p(x) then [x] else [])
  {
    if s != [] {
      assert (s + [x])[1..] == s[1..] + [x];
      FilterAppend(s[1..], x, p);
    }
  }

  /** Position in the table of the `k`-th selected row (counting from 0). */
  function NthIndex(s: seq<Task>, p: Task -> bool, k: nat): (g: nat)
    requires k < |Filter(s, p)|
    ensures g < |s| && p(s[g]) && s[g] == Filter(s, p)[k]
    decreases |s|
  {
    if p(s[0]) then
      if k == 0 then 0 else 1 + NthIndex(s[1..], p, k - 1)
    else
      1 + NthIndex(s[1..], p, k)
  }

  /** Writing a selected row back in place, still selected, replaces it in the selection. */
  lemma {:induction false} FilterUpdate(s: seq<Task>, p: Task -> bool, k: nat, v: Task)
    requires k < |Filter(s, p)| && p(v)
    ensures Filter(s[NthIndex(s, p, k) := v], p) == Filter(s, p)[k := v]
    decreases |s|
  {
    var g := NthIndex(s, p, k);
    var t := s[g := v];
    if p(s[0]) && k == 0 {
      assert t[1..] == s[1..];
    } else {
      var k' := if p(s[0]) then k - 1 else k;
      assert g == 1 + NthIndex(s[1..], p, k');
      FilterUpdate(s[1..], p, k', v);
      assert t[1..] == s[1..][g - 1 := v];
      assert t[0] == s[0];
    }
  }

  /** Filtering by `p` and then by `q` selects what `p && q` selects. */
  lemma {:induction false} FilterFilter(s: seq<Task>, p: Task -> bool, q: Task -> bool, pq: Task -> bool)
    requires forall x :: pq(x) == (p(x) && q(x))
    ensures Filter(Filter(s, p), q) == Filter(s, pq)
  {
    if s != [] {
      FilterFilter(s[1..], p, q, pq);
      var f := Filter(s, p);
      if p(s[0]) {
        assert f == [s[0]] + Filter(s[1..], p);
        assert f[0] == s[0] && f[1..] == Filter(s[1..], p);
      } else {
        assert f == Filter(s[1..], p);
      }
    }
  }

  /** A selection that keeps every row it is given is the identity. */
  lemma {:induction false} FilterAll(s: seq<Task>, p: Task -> bool)
    requires forall x :: x in s ==> p(x)
    ensures Filter(s, p) == s
  {
    if s != [] {
      FilterAll(s[1..], p);
    }
  }

  // ---------------------------------------------------------------------------
  // The chat's rows, and the rows created today

  /** `datetime.combine(now.date(), time.min)`: midnight at the start of `now`'s day. */
  function DayStart(now: int): (r: int)
    ensures r <= now < r + 86_400_000_000
    ensures r % 86_400_000_000 == 0
  {
    now / 86_400_000_000 * 86_400_000_000
  }

  /** `datetime.combine(now.date(), time.max)`: 23:59:59.999999 on `now`'s day. */
  function DayEnd(now: int): (r: int)
    ensures now <= r < now + 86_400_000_000
    ensures (r + 1) % 86_400_000_000 == 0
  {
    DayStart(now) + 86_400_000_000 - 1
  }

  /** The window `[today_start, today_end]`: it holds exactly the instants of `now`'s calendar day. */
  predicate InToday(ts: int, now: int)
    ensures InToday(ts, now) <==> ts / 86_400_000_000 == now / 86_400_000_000
  {
    var d := now / 86_400_000_000;
    var e := ts / 86_400_000_000;
    assert ts == e * 86_400_000_000 + ts % 86_400_000_000;
    assert DayStart(now) == d * 86_400_000_000;
    assert e < d ==> e * 86_400_000_000 + 86_400_000_000 <= d * 86_400_000_000;
    assert e > d ==> d * 86_400_000_000 + 86_400_000_000 <= e * 86_400_000_000;
    DayStart(now) <= ts <= DayEnd(now)
  }

  function InChat(chatId: string): Task -> bool {
    (t: Task) => t.chatId == chatId
  }

  function CreatedToday(chatId: string, now: int): Task -> bool {
    (t: Task) => t.chatId == chatId && InToday(t.timestamp, now)
  }

  /** `session.query(Task).filter_by(chat_id=chat_id).all()` */
  function ChatTasks(tasks: seq<Task>, chatId: string): (r: seq<Task>)
    ensures forall t :: t in r <==> t in tasks && t.chatId == chatId
  {
    FilterMembers(tasks, InChat(chatId));
    Filter(tasks, InChat(chatId))
  }

  /** The query of `/listtasks`: this chat's rows whose timestamp lies in today's window. */
  function TodaysTasks(tasks: seq<Task>, chatId: string, now: int): (r: seq<Task>)
    ensures forall t :: t in r <==> t in tasks && t.chatId == chatId && InToday(t.timestamp, now)
  {
    FilterMembers(tasks, CreatedToday(chatId, now));
    Filter(tasks, CreatedToday(chatId, now))
  }

  /** Today's tasks are the chat's tasks narrowed to today, in the same order. */
  lemma {:induction false} TodaysTasksOfChat(tasks: seq<Task>, chatId: string, now: int)
    ensures TodaysTasks(tasks, chatId, now) == Filter(ChatTasks(tasks, chatId), (t: Task) => InToday(t.timestamp, now))
  {
    FilterFilter(tasks, InChat(chatId), (t: Task) => InToday(t.timestamp, now), CreatedToday(chatId, now));
  }

  /** A task stamped with `now` is in `now`'s window. */
  lemma {:induction false} NowIsToday(now: int)
    ensures InToday(now, now)
  {
  }

  /** A new row joins its own chat's list at the end and leaves every other chat's list alone. */
  lemma {:induction false} ChatTasksAppend(tasks: seq<Task>, x: Task, chatId: string)
    ensures ChatTasks(tasks + [x], chatId) == ChatTasks(tasks, chatId) + (if x.chatId == chatId then [x] else [])
  {
    FilterAppend(tasks, x, InChat(chatId));
  }

  /** A task added now is the last line of its chat's listing now. */
  lemma {:induction false} AddedTaskListedLast(tasks: seq<Task>, x: Task, now: int)
    requires x.timestamp == now
    ensures TodaysTasks(tasks + [x], x.chatId, now) == TodaysTasks(tasks, x.chatId, now) + [x]
  {
    NowIsToday(now);
    FilterAppend(tasks, x, CreatedToday(x.chatId, now));
  }

  /**
   * `/listtasks` numbers today's tasks while `/done` numbers all of the chat's
   * tasks; the two numberings agree when every task of the chat is from today.
   */
  lemma {:induction false} OrdinalsAgreeWhenAllToday(tasks: seq<Task>, chatId: string, now: int)
    requires forall t :: t in ChatTasks(tasks, chatId) ==> InToday(t.timestamp, now)
    ensures TodaysTasks(tasks, chatId, now) == ChatTasks(tasks, chatId)
  {
    TodaysTasksOfChat(tasks, chatId, now);
    FilterAll(ChatTasks(tasks, chatId), (t: Task) => InToday(t.timestamp, now));
  }

  /**
   * With one task from yesterday and one from today, the listing shows today's
   * task as number 1, but `/done 1` picks yesterday's.
   */
  lemma {:induction false} OrdinalsDisagreeAcrossDays()
    ensures var old_ := Task(1, "c", "old", Pending, 0, Some("ann"), None);
      var new_ := Task(2, "c", "new", Pending, 86_400_000_000, Some("ann"), None);
      && ListTasks([old_, new_], "c", 86_400_000_000) == Listing([ListingLine(1, new_)])
      && DecideDone(ChatTasks([old_, new_], "c"), [IntStr(1)], "ann") == Complete(0)
      && ChatTasks([old_, new_], "c")[0] == old_
  {
    var old_ := Task(1, "c", "old", Pending, 0, Some("ann"), None);
    var new_ := Task(2, "c", "new", Pending, 86_400_000_000, Some("ann"), None);
    ListsOnlyToday(old_, new_);
    DoneCountsYesterday(old_, new_);
  }

  lemma {:induction false} ListsOnlyToday(old_: Task, new_: Task)
    requires old_ == Task(1, "c", "old", Pending, 0, Some("ann"), None)
    requires new_ == Task(2, "c", "new", Pending, 86_400_000_000, Some("ann"), None)
    ensures ListTasks([old_, new_], "c", 86_400_000_000) == Listing([ListingLine(1, new_)])
  {
    assert !InToday(0, 86_400_000_000);
    NowIsToday(86_400_000_000);
    var both := [old_, new_];
    assert both[1..] == [new_] && [new_][1..] == [];
    assert TodaysTasks([new_], "c", 86_400_000_000) == [new_];
    assert TodaysTasks(both, "c", 86_400_000_000) == [new_];
  }

  lemma {:induction false} DoneCountsYesterday(old_: Task, new_: Task)
    requires old_ == Task(1, "c", "old", Pending, 0, Some("ann"), None)
    requires new_ == Task(2, "c", "new", Pending, 86_400_000_000, Some("ann"), None)
    ensures DecideDone(ChatTasks([old_, new_], "c"), [IntStr(1)], "ann") == Complete(0)
    ensures ChatTasks([old_, new_], "c")[0] == old_
  {
    var both := [old_, new_];
    assert both[1..] == [new_] && [new_][1..] == [];
    assert ChatTasks([new_], "c") == [new_];
    assert ChatTasks(both, "c") == [old_] + [new_];
    DoneSelectsOrdinal([old_, new_], 1, [], "ann");
    assert [IntStr(1)] + [] == [IntStr(1)];
  }

  /** The query returns nothing exactly when none of the chat's rows lies in today's window. */
  lemma {:induction false} NothingTodayIff(tasks: seq<Task>, chatId: string, now: int)
    ensures TodaysTasks(tasks, chatId, now) == [] <==>
      forall t :: t in tasks && t.chatId == chatId ==> !InToday(t.timestamp, now)
  {
    var p := CreatedToday(chatId, now);
    var today := TodaysTasks(tasks, chatId, now);
    if today == [] {
      forall t | t in tasks && t.chatId == chatId ensures !InToday(t.timestamp, now) {
        FilterMember(tasks, p, t);
      }
    } else {
      FilterMember(tasks, p, today[0]);
    }
  }

  // ---------------------------------------------------------------------------
  // Replies

  datatype Reply =
    | AskForDescription
    | TaskAdded(creator: string, description: string)
    | NoTasksToday
    | Listing(lines: seq<string>)
    | InvalidTaskNumber
    | NotYourTask(createdBy: Option<string>)
    | MarkedDone(timeTaken: string)
    | CouldNotParseTime

  /** The text each reply is sent as. */
  function Text(r: Reply): (text: string)
    ensures r.TaskAdded? ==> EndsWith(text, r.description)
    ensures r.MarkedDone? ==> EndsWith(text, r.timeTaken)
    ensures r.NotYourTask? ==> EndsWith(text, Show(r.createdBy) + ".")
  {
    match r
    case AskForDescription => "\U{2757} Please provide a task description."
    case TaskAdded(creator, description) =>
      var head := "\U{2705} Task added by @" + creator + ": ";
      EndsWithAppend(head, description);
      head + description
    case NoTasksToday => "\U{1F4ED} No tasks for today."
    case Listing(lines) => "\U{1F5C2}\U{FE0F} Today's Tasks:\n" + Join(lines, "\n")
    case InvalidTaskNumber => "\U{2757} Please provide a valid task number."
    case NotYourTask(createdBy) =>
      var head := "\U{26D4} You can only mark your own tasks as done. This one was created by ";
      EndsWithAppend(head, Show(createdBy) + ".");
      head + (Show(createdBy) + ".")
    case MarkedDone(timeTaken) =>
      var head := "\U{2705} Task marked as done!\n\U{23F1}\U{FE0F} Time taken: ";
      EndsWithAppend(head, timeTaken);
      head + timeTaken
    case CouldNotParseTime => "\U{2757} Could not parse time. Try again."
  }

  predicate EndsWith(s: string, suffix: string) {
    |suffix| <= |s| && s[|s| - |suffix|..] == suffix
  }

  lemma {:induction false} EndsWithAppend(head: string, tail: string)
    ensures EndsWith(head + tail, tail)
  {
    assert (head + tail)[|head|..] == tail;
  }

  /** One line of the listing: `f"{i+1}. {t.description} - {t.status} ({t.duration}) - {t.created_by}"`. */
  function ListingLine(ordinal: nat, t: Task): string {
    NatStr(ordinal) + (". " + (t.description + (" - " + (StatusText(t.status)
      + (" (" + (Show(t.duration) + (") - " + Show(t.createdBy))))))))
  }

  /** The number a listing line starts with is the ordinal, as `int()` reads it back. */
  lemma {:induction false} ListingLineNumber(ordinal: nat, t: Task)
    ensures ParseInt(BeforeFirst(ListingLine(ordinal, t), '.')) == Some(ordinal)
  {
    var d := NatStr(ordinal);
    DigitsHaveNoDot(d);
    BeforeFirstOfPrefix(d, ListingLine(ordinal, t)[|d|..], '.');
    assert ListingLine(ordinal, t) == d + ListingLine(ordinal, t)[|d|..];
    ParseIntNatural(ordinal);
  }

  /**
   * `/listtasks`: no listing when the chat has no task in today's window;
   * otherwise one line per such task, in table order, numbered from 1.
   */
  function ListTasks(tasks: seq<Task>, chatId: string, now: int): (r: Reply)
    ensures r.NoTasksToday? || r.Listing?
    ensures r.NoTasksToday? <==> forall t :: t in tasks && t.chatId == chatId ==> !InToday(t.timestamp, now)
    ensures r.Listing? ==>
      var today := TodaysTasks(tasks, chatId, now);
      && |r.lines| == |today|
      && forall i :: 0 <= i < |today| ==> r.lines[i] == ListingLine(i + 1, today[i])
  {
    var today := TodaysTasks(tasks, chatId, now);
    NothingTodayIff(tasks, chatId, now);
    if today == [] then
      NoTasksToday
    else
      Listing(seq(|today|, i requires 0 <= i < |today| => ListingLine(i + 1, today[i])))
  }

  // ---------------------------------------------------------------------------
  // `/done N`

  datatype Decision = BadNumber | NotCreator(createdBy: Option<string>) | Complete(index: nat)

  /**
   * What `/done` does with the chat's full task list: read the ordinal with
   * `int()`, check it against the list's length, then check ownership. The
   * task's status is not consulted.
   */
  function DecideDone(chatTasks: seq<Task>, args: seq<string>, actor: string): (d: Decision)
    ensures d.BadNumber? <==>
      |args| == 0 || ParseInt(args[0]).None? || !(1 <= ParseInt(args[0]).value <= |chatTasks|)
    ensures !d.BadNumber? ==>
      var k := ParseInt(args[0]).value;
      && (d.Complete? <==> CanComplete(chatTasks[k - 1], actor))
      && (d.Complete? ==> d.index == k - 1)
      && (d.NotCreator? ==> d.createdBy == chatTasks[k - 1].createdBy)
  {
    if |args| == 0 then
      BadNumber
    else
      match ParseInt(args[0])
      case None => BadNumber
      case Some(n) =>
        var index := n - 1;
        if index < 0 || index >= |chatTasks| then BadNumber
        else if !CanComplete(chatTasks[index], actor) then NotCreator(chatTasks[index].createdBy)
        else Complete(index)
  }

  /** `/done k` with `k` written as Python writes it selects the chat's `k`-th task, whatever its status. */
  lemma {:induction false} DoneSelectsOrdinal(chatTasks: seq<Task>, k: int, rest: seq<string>, actor: string)
    requires 1 <= k <= |chatTasks|
    ensures DecideDone(chatTasks, [IntStr(k)] + rest, actor) ==
      if CanComplete(chatTasks[k - 1], actor) then Complete(k - 1) else NotCreator(chatTasks[k - 1].createdBy)
  {
    ParseIntStr(k);
  }

  /** An ordinal outside `1..n`, where `n` counts all the chat's tasks, is refused. */
  lemma {:induction false} DoneRejectsOutOfRange(chatTasks: seq<Task>, k: int, rest: seq<string>, actor: string)
    requires k < 1 || k > |chatTasks|
    ensures DecideDone(chatTasks, [IntStr(k)] + rest, actor) == BadNumber
  {
    ParseIntStr(k);
  }

  /** A task with no recorded creator is never completed, whoever asks and however. */
  lemma {:induction false} UncreatedNeverCompleted(chatTasks: seq<Task>, args: seq<string>, actor: string, i: nat)
    requires i < |chatTasks| && chatTasks[i].createdBy == None
    ensures DecideDone(chatTasks, args, actor) != Complete(i)
  {
    assert !CanComplete(chatTasks[i], actor);
  }

  /** `/done` never looks at status or duration, so a task that is already done is completed again. */
  lemma {:induction false} DoneIgnoresStatus(chatTasks: seq<Task>, i: nat, args: seq<string>, actor: string, t: Task)
    requires i < |chatTasks|
    requires t.(status := chatTasks[i].status, duration := chatTasks[i].duration) == chatTasks[i]
    ensures DecideDone(chatTasks[i := t], args, actor) == DecideDone(chatTasks, args, actor)
  {
    var c := chatTasks[i := t];
    assert |c| == |chatTasks|;
    assert forall j :: 0 <= j < |c| ==> c[j].createdBy == chatTasks[j].createdBy;
  }

  /** `datetime.now() - task.timestamp`: the time a task has been open, in microseconds. */
  function Elapsed(now: int, since: int): int {
    now - since
  }

  /**
   * The row `/done` writes back: status `done` and a duration text; every
   * other column as it was.
   */
  function Completed(t: Task, now: int): (r: Task)
    ensures r.status == Done && r.duration.Some?
    ensures r.(status := t.status, duration := t.duration) == t
  {
    t.(status := Done, duration := Some(ElapsedText(Elapsed(now, t.timestamp))))
  }

  /**
   * The duration `/done` stores is `str()` of the time since the task's
   * timestamp rounded down to whole seconds, so it never shows a fraction of
   * a second.
   */
  lemma {:induction false} CompletedDuration(t: Task, now: int)
    ensures Completed(t, now).duration == Some(TimedeltaStr(Elapsed(now, t.timestamp) / 1_000_000 * 1_000_000))
    ensures '.' !in Completed(t, now).duration.value
  {
    ElapsedTextIsWholeSeconds(Elapsed(now, t.timestamp));
  }

  // ---------------------------------------------------------------------------
  // Reminder text

  const REMIND_PHRASE: string := "Remind me to"

  /** `message.replace("Remind me to", "").strip()` */
  function ExtractTaskText(message: string): (r: string)
    ensures IsStripped(r) && |r| <= |message|
  {
    Strip(RemoveAll(message, REMIND_PHRASE))
  }

  /** A message without the (case-sensitive) phrase comes back only stripped. */
  lemma {:induction false} ExtractWithoutPhrase(message: string)
    requires !Occurs(message, REMIND_PHRASE)
    ensures ExtractTaskText(message) == Strip(message)
  {
    RemoveAllUnchanged(message, REMIND_PHRASE);
  }

  /**
   * When the phrase occurs, the text before its leftmost occurrence is kept,
   * that occurrence goes, and the rest is scanned on from just after it.
   */
  lemma {:induction false} ExtractWithPhrase(message: string)
    requires Occurs(message, REMIND_PHRASE)
    ensures exists i: nat ::
      && OccursAt(message, REMIND_PHRASE, i)
      && (forall j: nat :: j < i ==> !OccursAt(message, REMIND_PHRASE, j))
      && ExtractTaskText(message) == Strip(message[..i] + RemoveAll(message[i + |REMIND_PHRASE|..], REMIND_PHRASE))
  {
    var k: nat :| k <= |message| && OccursAt(message, REMIND_PHRASE, k);
    FirstOccurrence(message, REMIND_PHRASE, k);
    var i: nat :| i <= k && OccursAt(message, REMIND_PHRASE, i)
      && forall j: nat :: j < i ==> !OccursAt(message, REMIND_PHRASE, j);
    RemoveAllAtFirst(message, REMIND_PHRASE, i);
  }

  /** The phrase starts with a capital `R`, so text without one keeps every character. */
  lemma {:induction false} NoCapitalNoPhrase(message: string)
    requires 'R' !in message
    ensures !Occurs(message, REMIND_PHRASE)
  {
    forall i: nat | i + |REMIND_PHRASE| <= |message| ensures !OccursAt(message, REMIND_PHRASE, i) {
      assert message[i..i + |REMIND_PHRASE|][0] == message[i];
    }
  }

  /** The usual message: the phrase and the space after it go. */
  lemma {:induction false} ExtractPlainReminder()
    ensures ExtractTaskText("Remind me to call mom") == "call mom"
  {
    var m := "Remind me to call mom";
    assert m[..12] == REMIND_PHRASE;
    var rest := m[12..];
    assert rest == " call mom";
    assert RemoveAll(m, REMIND_PHRASE) == rest;
    assert SpaceBordered(rest, 1, 9);
    assert rest[1..9] == "call mom";
    StripUnique(rest, 1, 9);
  }

  /** The match is case-sensitive: a lower-case phrase stays in the task text. */
  lemma {:induction false} ExtractLowerCase()
    ensures ExtractTaskText("remind me to call mom") == "remind me to call mom"
  {
    var m := "remind me to call mom";
    assert forall i :: 0 <= i < |m| ==> m[i] != 'R';
    NoCapitalNoPhrase(m);
    ExtractWithoutPhrase(m);
    assert IsStripped(m);
    StripOfStripped(m);
  }

  /** `replace` makes one pass, so removing the phrase can leave a new one behind. */
  lemma {:induction false} ExtractSinglePass(m: string)
    requires m == "R" + ("e" + ("m" + (REMIND_PHRASE + "ind me to")))
    ensures ExtractTaskText(m) == REMIND_PHRASE
  {
    SinglePassRemoval(m);
    assert IsStripped(REMIND_PHRASE);
    StripOfStripped(REMIND_PHRASE);
  }

  lemma {:induction false} SinglePassRemoval(m: string)
    requires m == "R" + ("e" + ("m" + (REMIND_PHRASE + "ind me to")))
    ensures RemoveAll(m, REMIND_PHRASE) == REMIND_PHRASE
  {
    var p := REMIND_PHRASE;
    var tail := "ind me to";
    var u := p + tail;
    assert u[..12] == p && u[12..] == tail;
    RemoveAllDrops(u, p);
    var mu := "m" + u;
    assert mu[1..] == u && mu[0] == 'm';
    RemoveAllKeeps(mu, p, 0);
    assert [mu[0]] == "m";
    assert RemoveAll(mu, p) == "m" + tail;
    var emu := "e" + mu;
    assert emu[1..] == mu && emu[0] == 'e';
    RemoveAllKeeps(emu, p, 0);
    assert [emu[0]] == "e";
    assert RemoveAll(emu, p) == "e" + ("m" + tail);
    assert m[1..] == emu && m[0] == 'R';
    assert m[3] == 'R';
    RemoveAllKeeps(m, p, 3);
    assert [m[0]] == "R";
    assert RemoveAll(m, p) == "R" + ("e" + ("m" + tail));
    PhraseSplits();
  }

  lemma PhraseSplits()
    ensures "R" + ("e" + ("m" + "ind me to")) == REMIND_PHRASE
  {
  }
}
