/**
 * The bot's command handlers over its one shared table of tasks: `/addtask`,
 * `/listtasks`, `/done N` and the free-text reminder handler. The table is the
 * sequence of rows in insertion order; each handler is one method that reads
 * or rewrites it and returns the reply it sends.
 */
module Bot {
  import opened Wrappers
  import opened PyStr
  import opened PyInt
  import opened Registry

  /** The `tasks` table, as the session sees it. */
  class TaskStore {
    var tasks: seq<Task>

    /**
     * Row `i` has id `i + 1` (ids are assigned in insertion order and rows
     * are never deleted), every row was added by a known creator, and a row
     * has a duration exactly when it is done.
     */
    ghost predicate Valid()
      reads this
    {
      forall i :: 0 <= i < |tasks| ==>
        && tasks[i].id == i + 1
        && tasks[i].createdBy.Some?
        && (tasks[i].status == Done <==> tasks[i].duration.Some?)
    }

    /** In a valid table, every task `/listtasks` shows has a duration exactly when it is done. */
    lemma ListedDurationIffDone(chatId: string, now: int)
      requires Valid()
      ensures forall t :: t in TodaysTasks(tasks, chatId, now) ==> (t.status == Done <==> t.duration.Some?)
    {
      forall t | t in TodaysTasks(tasks, chatId, now) ensures t.status == Done <==> t.duration.Some? {
        var i :| 0 <= i < |tasks| && tasks[i] == t;
      }
    }

    /** An empty table. */
    constructor ()
      ensures tasks == [] && Valid()
    {
      tasks := [];
    }

    /**
     * `/addtask <words>`: the words joined by single spaces are the
     * description; with none, ask for one and add nothing. Otherwise append a
     * pending row stamped with `now` and the sender's identity.
     */
    method AddTask(chatId: string, args: seq<string>, sender: User, now: int) returns (reply: Reply)
      requires Valid()
      modifies this
      ensures Valid()
      ensures var desc := Join(args, " ");
        if desc == [] then
          reply == AskForDescription && tasks == old(tasks)
        else
          var creator := ResolveIdentity(sender);
          && tasks == old(tasks) + [Task(|old(tasks)| + 1, chatId, desc, Pending, now, Some(creator), None)]
          && reply == TaskAdded(creator, desc)
    {
      var desc := Join(args, " ");
      if desc == [] {
        return AskForDescription;
      }
      var creator := ResolveIdentity(sender);
      tasks := tasks + [Task(|tasks| + 1, chatId, desc, Pending, now, Some(creator), None)];
      reply := TaskAdded(creator, desc);
    }

    /** `/listtasks`: this chat's tasks from `now`'s day, numbered in table order. */
    method ListTasks(chatId: string, now: int) returns (reply: Reply)
      ensures reply == Registry.ListTasks(tasks, chatId, now)
      ensures reply.NoTasksToday? <==> forall t :: t in tasks && t.chatId == chatId ==> !InToday(t.timestamp, now)
    {
      reply := Registry.ListTasks(tasks, chatId, now);
    }

    /**
     * `/done N`: pick the chat's `N`-th task counting all of its tasks; if
     * the sender created it, mark it done with the time elapsed since its
     * timestamp. Nothing changes otherwise.
     */
    method MarkDone(chatId: string, args: seq<string>, sender: User, now: int) returns (reply: Reply)
      requires Valid()
      modifies this
      ensures Valid()
      ensures |tasks| == |old(tasks)|
      ensures forall i :: 0 <= i < |tasks| && old(tasks)[i].status == Done ==> tasks[i].status == Done
      ensures match DecideDone(ChatTasks(old(tasks), chatId), args, ResolveIdentity(sender))
        case BadNumber => reply == InvalidTaskNumber && tasks == old(tasks)
        case NotCreator(createdBy) => reply == NotYourTask(createdBy) && tasks == old(tasks)
        case Complete(k) =>
          var g := NthIndex(old(tasks), InChat(chatId), k);
          var done := Completed(old(tasks)[g], now);
          && tasks == old(tasks)[g := done]
          && ChatTasks(tasks, chatId) == ChatTasks(old(tasks), chatId)[k := done]
          && reply == MarkedDone(done.duration.value)
    {
      var user := ResolveIdentity(sender);
      var chatTasks := ChatTasks(tasks, chatId);
      var decision := DecideDone(chatTasks, args, user);
      match decision {
        case BadNumber =>
          reply := InvalidTaskNumber;
        case NotCreator(createdBy) =>
          reply := NotYourTask(createdBy);
        case Complete(k) =>
          var g := NthIndex(tasks, InChat(chatId), k);
          var done := Completed(tasks[g], now);
          FilterUpdate(tasks, InChat(chatId), k, done);
          tasks := tasks[g := done];
          reply := MarkedDone(done.duration.value);
      }
    }

    /**
     * The reminder handler, given what the date parser made of the message.
     * Without a time it says so. With one, the handler fails when it asks for
     * the current time (`datetime.datetime.now()` on the class), before any
     * row is written: no reply and no change. The task text it extracts
     * first (`Registry.ExtractTaskText`) is only used on that failing path.
     */
    method SmartTask(chatId: string, message: string, parsedTime: Option<int>) returns (reply: Option<Reply>)
      ensures parsedTime.None? <==> reply == Some(CouldNotParseTime)
      ensures parsedTime.Some? <==> reply.None?
    {
      if parsedTime.None? {
        reply := Some(CouldNotParseTime);
      } else {
        reply := None;
      }
    }
  }

  /** The creator of a task can always complete it by the number it has in the chat's full list. */
  lemma {:induction false} CreatorCanComplete(tasks: seq<Task>, chatId: string, sender: User, k: int)
    requires 1 <= k <= |ChatTasks(tasks, chatId)|
    requires ChatTasks(tasks, chatId)[k - 1].createdBy == Some(ResolveIdentity(sender))
    ensures DecideDone(ChatTasks(tasks, chatId), [IntStr(k)], ResolveIdentity(sender)) == Complete(k - 1)
  {
    DoneSelectsOrdinal(ChatTasks(tasks, chatId), k, [], ResolveIdentity(sender));
    assert [IntStr(k)] + [] == [IntStr(k)];
  }
}
