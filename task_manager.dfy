/**
 * The task manager: the in-memory task list of one invocation, the load that
 * recovers from an unreadable store, and the operations that change or show
 * the list. Writing `tasks.json` is modelled as an event: every save appends
 * the list being written to `writes`.
 */
module TaskManagement {
  import opened Wrappers
  import opened Tasks

  /** One printed line of a listing: the status marker, the title and the id. */
  datatype Line = Line(done: bool, title: string, id: string)

  /** What `listTasks` prints: the "No tasks found" notice or one line per task. */
  datatype Listing = NoTasksFound | Lines(lines: seq<Line>)

  function LineOf(t: Task): (l: Line)
    ensures l.done <==> t.completed
    ensures l.title == t.title && l.id == t.id
  {
    Line(t.completed, t.title, t.id)
  }

  class TaskManager {
    /** The ordered task list; insertion order is display order. */
    var tasks: seq<Task>
    /** Every list written to the store file so far, oldest first. */
    var writes: seq<seq<Task>>

    constructor ()
      ensures tasks == [] && writes == []
    {
      tasks := [];
      writes := [];
    }

    /** Overwrite the store file with the current list. */
    method SaveTasks()
      modifies this
      ensures tasks == old(tasks)
      ensures writes == old(writes) + [tasks]
    {
      writes := writes + [tasks];
    }

    /**
     * Load the list. `parsed` is what reading and parsing the file gave:
     * the list, or None when the file was missing, unreadable or not
     * parseable. In that case the list becomes empty and is saved at once.
     */
    method LoadTasks(parsed: Option<seq<Task>>) returns (saved: bool)
      modifies this
      ensures saved <==> parsed.None?
      ensures tasks == (if parsed.Some? then parsed.value else [])
      ensures writes == (if saved then old(writes) + [[]] else old(writes))
    {
      if parsed.Some? {
        tasks := parsed.value;
        saved := false;
      } else {
        tasks := [];
        SaveTasks();
        saved := true;
      }
    }

    /** Append a new pending task with the given id and creation time, then save. */
    method AddTask(title: string, id: string, now: Timestamp) returns (saved: bool)
      modifies this
      ensures saved
      ensures tasks == old(tasks) + [NewTask(id, title, now)]
      ensures |tasks| == |old(tasks)| + 1 && tasks[..|old(tasks)|] == old(tasks)
      ensures writes == old(writes) + [tasks]
      ensures AllConsistent(old(tasks)) ==> AllConsistent(tasks)
      ensures UniqueIds(old(tasks)) && !HasId(old(tasks), id) ==> UniqueIds(tasks)
    {
      tasks := tasks + [NewTask(id, title, now)];
      SaveTasks();
      saved := true;
      if AllConsistent(old(tasks)) {
        AddKeepsConsistent(old(tasks), id, title, now);
      }
      if UniqueIds(old(tasks)) && !HasId(old(tasks), id) {
        AddKeepsUnique(old(tasks), id, title, now);
      }
    }

    /** What `listTasks` prints for the current list; it changes nothing. */
    method ListTasks(showCompleted: bool) returns (out: Listing)
      ensures out.NoTasksFound? <==> Visible(tasks, showCompleted) == []
      ensures out.Lines? ==>
        && |out.lines| == |Visible(tasks, showCompleted)|
        && forall k :: 0 <= k < |out.lines| ==> out.lines[k] == LineOf(Visible(tasks, showCompleted)[k])
    {
      var filtered := Visible(tasks, showCompleted);
      if |filtered| == 0 {
        return NoTasksFound;
      }
      var lines: seq<Line> := [];
      for k := 0 to |filtered|
        invariant |lines| == k
        invariant forall j :: 0 <= j < k ==> lines[j] == LineOf(filtered[j])
      {
        lines := lines + [LineOf(filtered[k])];
      }
      out := Lines(lines);
    }

    /**
     * Mark the first task with the id completed at `now`, then save. With no
     * such task, nothing changes and nothing is saved.
     */
    method CompleteTask(id: string, now: Timestamp) returns (saved: bool)
      modifies this
      ensures saved <==> HasId(old(tasks), id)
      ensures tasks == CompleteFirst(old(tasks), id, now)
      ensures !saved ==> tasks == old(tasks)
      ensures writes == (if saved then old(writes) + [tasks] else old(writes))
      ensures AllConsistent(old(tasks)) ==> AllConsistent(tasks)
      ensures UniqueIds(old(tasks)) ==> UniqueIds(tasks)
    {
      var i := FindIndex(tasks, id);
      if i == -1 {
        return false;
      }
      tasks := tasks[i := MarkCompleted(tasks[i], now)];
      SaveTasks();
      saved := true;
      if AllConsistent(old(tasks)) {
        CompleteKeepsConsistent(old(tasks), id, now);
      }
      if UniqueIds(old(tasks)) {
        CompleteKeepsUnique(old(tasks), id, now);
      }
    }

    /**
     * Remove the first task with the id, then save. With no such task,
     * nothing changes and nothing is saved.
     */
    method DeleteTask(id: string) returns (saved: bool)
      modifies this
      ensures saved <==> HasId(old(tasks), id)
      ensures tasks == RemoveFirst(old(tasks), id)
      ensures saved ==> |tasks| == |old(tasks)| - 1
      ensures !saved ==> tasks == old(tasks)
      ensures writes == (if saved then old(writes) + [tasks] else old(writes))
      ensures AllConsistent(old(tasks)) ==> AllConsistent(tasks)
      ensures UniqueIds(old(tasks)) ==> UniqueIds(tasks) && !HasId(tasks, id)
    {
      var i := FindIndex(tasks, id);
      if i == -1 {
        return false;
      }
      tasks := tasks[..i] + tasks[i + 1..];
      SaveTasks();
      saved := true;
      if AllConsistent(old(tasks)) {
        RemoveKeepsConsistent(old(tasks), id);
      }
      if UniqueIds(old(tasks)) {
        RemoveFirstUnique(old(tasks), id);
      }
    }
  }
}
