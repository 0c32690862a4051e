/**
 * The task store: TaskManager's ordered list of tasks, its index-checked
 * removal and completion, the numbered listing, and the task file it
 * rewrites after every change.
 */
module TaskStore {
  import opened Wrappers
  import opened Text
  import opened Tasks
  import opened Codec

  /** What RemoveTask and CompleteTask print for an index out of range. */
  const InvalidTaskNumber: string := "Invalid task number."
  /** What CompleteTask prints after a completion. */
  const TaskMarkedCompleted: string := "Task marked as completed."
  /** What ViewTasks prints for an empty list. */
  const NoTasksAvailable: string := "No tasks available."

  /** The bounds check of RemoveTask and CompleteTask. */
  predicate InRange(ts: seq<Task>, index: int)
  {
    0 <= index < |ts|
  }

  /** The list after RemoveTask(index): RemoveAt when in range, else unchanged. */
  function Remove(ts: seq<Task>, index: int): seq<Task>
  {
    if InRange(ts, index) then ts[..index] + ts[index + 1..] else ts
  }

  /** The list after CompleteTask(index): that task completed when in range, else unchanged. */
  function Complete(ts: seq<Task>, index: int): seq<Task>
  {
    if InRange(ts, index) then ts[index := ts[index].(isCompleted := true)] else ts
  }

  /**
   * Removing an in-range task shortens the list by one, keeps the tasks
   * before it in place and shifts the tasks after it left by one; exactly
   * that one task is gone. Out of range, nothing changes.
   */
  lemma RemoveEffect(ts: seq<Task>, index: int)
    ensures !InRange(ts, index) ==> Remove(ts, index) == ts
    ensures InRange(ts, index) ==>
      var r := Remove(ts, index);
      && |r| == |ts| - 1
      && (forall j :: 0 <= j < index ==> r[j] == ts[j])
      && (forall j :: index <= j < |r| ==> r[j] == ts[j + 1])
      && multiset(r) + multiset{ts[index]} == multiset(ts)
  {
    if InRange(ts, index) {
      assert ts == ts[..index] + [ts[index]] + ts[index + 1..];
    }
  }

  /**
   * Completing an in-range task sets its flag and changes nothing else: the
   * length, every description and kind, and every other flag stay as they
   * were. Out of range, nothing changes.
   */
  lemma CompleteEffect(ts: seq<Task>, index: int)
    ensures !InRange(ts, index) ==> Complete(ts, index) == ts
    ensures var r := Complete(ts, index);
      && |r| == |ts|
      && forall j :: 0 <= j < |ts| ==>
           && r[j].description == ts[j].description
           && r[j].kind == ts[j].kind
           && r[j].isCompleted == (ts[j].isCompleted || (InRange(ts, index) && j == index))
  {
  }

  /** Completing the same task twice is the same as completing it once. */
  lemma CompleteIdempotent(ts: seq<Task>, index: int)
    ensures Complete(Complete(ts, index), index) == Complete(ts, index)
  {
  }

  /** The line ViewTasks writes for the task at 1-based position `n`. */
  function Row(n: nat, t: Task): string
  {
    NatToString(n) + ". " + Display(t)
  }

  /** Everything ViewTasks writes, one string per line. */
  function View(ts: seq<Task>): seq<string>
  {
    if |ts| == 0 then [NoTasksAvailable]
    else seq(|ts|, i requires 0 <= i < |ts| => Row(i + 1, ts[i]))
  }

  /**
   * The number the menu reads for remove and complete is turned into an index
   * by subtracting one: it is in range exactly when it is one of the numbers
   * the listing shows, and then it addresses the task listed under it.
   */
  lemma MenuNumberAddressesListedTask(ts: seq<Task>, n: int)
    ensures InRange(ts, n - 1) <==> 1 <= n <= |ts|
    ensures InRange(ts, n - 1) ==> View(ts)[n - 1] == Row(n, ts[n - 1])
  {
  }

  /** The in-memory task list together with the task file it keeps saved. */
  class TaskManager {
    /** The tasks in insertion order. */
    var tasks: seq<Task>
    /** The lines of tasks.txt; None while the file does not exist. */
    var file: Option<seq<string>>

    /** The file holds exactly the current list. */
    predicate Saved()
      reads this
    {
      file == Some(Encode(tasks))
    }

    /** An empty list over whatever task file exists (the list before loading). */
    constructor (stored: Option<seq<string>>)
      ensures tasks == [] && file == stored
    {
      tasks := [];
      file := stored;
    }

    /**
     * Start-up: an empty list, then the file loaded into it. A line that does
     * not parse aborts start-up with its error.
     */
    static method Open(stored: Option<seq<string>>) returns (r: Result<TaskManager, LoadError>)
      ensures Decode(Lines(stored)).Success? <==> r.Success?
      ensures r.Success? ==>
        && fresh(r.value)
        && r.value.tasks == Decode(Lines(stored)).value
        && r.value.file == stored
      ensures r.Failure? ==> r.error == Decode(Lines(stored)).error
    {
      var m := new TaskManager(stored);
      var failure := m.LoadTasksFromFile();
      match failure
      case None => r := Success(m);
      case Some(e) => r := Failure(e);
    }

    /** Appends a new, not completed, basic task and saves. */
    method AddTask(description: string)
      modifies this
      ensures tasks == old(tasks) + [Task(description, false, Basic)]
      ensures Saved()
    {
      tasks := tasks + [Task(description, false, Basic)];
      SaveTasksToFile();
    }

    /**
     * Removes the task at a 0-based index and saves; an index out of range
     * prints an error and changes neither the list nor the file.
     */
    method RemoveTask(index: int) returns (output: seq<string>)
      modifies this
      ensures tasks == Remove(old(tasks), index)
      ensures InRange(old(tasks), index) ==> output == [] && Saved()
      ensures !InRange(old(tasks), index) ==> output == [InvalidTaskNumber] && file == old(file)
    {
      if index < 0 || index >= |tasks| {
        output := [InvalidTaskNumber];
        return;
      }
      tasks := tasks[..index] + tasks[index + 1..];
      SaveTasksToFile();
      output := [];
    }

    /**
     * Marks the task at a 0-based index completed, saves and reports it; an
     * index out of range prints an error and changes neither the list nor
     * the file.
     */
    method CompleteTask(index: int) returns (output: seq<string>)
      modifies this
      ensures tasks == Complete(old(tasks), index)
      ensures InRange(old(tasks), index) ==> output == [TaskMarkedCompleted] && Saved()
      ensures !InRange(old(tasks), index) ==> output == [InvalidTaskNumber] && file == old(file)
    {
      if index < 0 || index >= |tasks| {
        output := [InvalidTaskNumber];
        return;
      }
      tasks := tasks[index := tasks[index].(isCompleted := true)];
      SaveTasksToFile();
      output := [TaskMarkedCompleted];
    }

    /**
     * The listing: "No tasks available." for an empty list, otherwise one line
     * per task, "<n>. " and its display, numbered from 1 in list order.
     */
    method ViewTasks() returns (output: seq<string>)
      ensures |tasks| == 0 ==> output == [NoTasksAvailable]
      ensures |tasks| > 0 ==>
        && |output| == |tasks|
        && forall i :: 0 <= i < |tasks| ==> output[i] == Row(i + 1, tasks[i])
      ensures output == View(tasks)
    {
      if |tasks| == 0 {
        output := [NoTasksAvailable];
        return;
      }
      output := [];
      for i := 0 to |tasks|
        invariant |output| == i
        invariant forall j :: 0 <= j < i ==> output[j] == Row(j + 1, tasks[j])
      {
        output := output + [Row(i + 1, tasks[i])];
      }
    }

    /** Rewrites the whole file: one encoded line per task, in list order. */
    method SaveTasksToFile()
      modifies this`file
      ensures Saved()
    {
      var lines: seq<string> := [];
      for i := 0 to |tasks|
        invariant lines == Encode(tasks[..i])
      {
        assert tasks[..i + 1] == tasks[..i] + [tasks[i]];
        lines := lines + [EncodeLine(tasks[i])];
      }
      assert tasks[..|tasks|] == tasks;
      file := Some(lines);
    }

    /**
     * Appends the file's tasks to the list, line by line. A missing file adds
     * nothing. On the first line that does not parse it stops and reports it,
     * with the lines before it already appended.
     */
    method LoadTasksFromFile() returns (failure: Option<LoadError>)
      modifies this`tasks
      ensures var lines := Lines(file);
        match Decode(lines)
        case Success(loaded) => failure == None && tasks == old(tasks) + loaded
        case Failure(e) =>
          && failure == Some(e)
          && e.line < |lines|
          && |old(tasks)| <= |tasks|
          && tasks[..|old(tasks)|] == old(tasks)
          && Decode(lines[..e.line]) == Success(tasks[|old(tasks)|..])
    {
      if file.None? {
        return None;
      }
      var lines := file.value;
      ghost var before := tasks;
      var i := 0;
      while i < |lines|
        invariant 0 <= i <= |lines|
        invariant Decode(lines[..i]).Success?
        invariant tasks == before + Decode(lines[..i]).value
      {
        assert lines[..i + 1][..i] == lines[..i];
        match DecodeLine(lines[i])
        case Failure(reason) =>
          DecodeReportsBadLine(lines, i);
          return Some(LoadError(i, reason));
        case Success(t) =>
          tasks := tasks + [t];
          i := i + 1;
      }
      assert lines[..i] == lines;
      failure := None;
    }
  }

  /** The listings the session below expects. */
  lemma SessionListings()
    ensures View([Task("Buy milk", true, Basic), Task("Call mom", false, Basic)])
         == ["1. [X] Buy milk", "2. [ ] Call mom"]
    ensures View([Task("Buy milk", true, Basic)]) == ["1. [X] Buy milk"]
  {
    assert NatToString(1) == "1" && NatToString(2) == "2";
    assert Row(1, Task("Buy milk", true, Basic)) == "1. [X] Buy milk";
    assert Row(2, Task("Call mom", false, Basic)) == "2. [ ] Call mom";
  }

  /**
   * A session: start without a file, add two tasks, complete the first,
   * remove the second, and start again from the saved file.
   */
  method Session()
  {
    var started := TaskManager.Open(None);
    var m := started.value;
    m.AddTask("Buy milk");
    m.AddTask("Call mom");
    var completed := m.CompleteTask(0);
    assert completed == [TaskMarkedCompleted];
    var milk := Task("Buy milk", true, Basic);
    assert m.tasks == [milk, Task("Call mom", false, Basic)];
    SessionListings();
    var listing := m.ViewTasks();
    assert listing == ["1. [X] Buy milk", "2. [ ] Call mom"];
    var removed := m.RemoveTask(1);
    assert removed == [] && m.tasks == [milk];
    listing := m.ViewTasks();
    assert listing == ["1. [X] Buy milk"];
    var invalid := m.RemoveTask(5);
    assert invalid == [InvalidTaskNumber] && m.tasks == [milk];

    assert m.file == Some(Encode([milk]));
    RoundTrip([milk]);
    assert StripDueDates([milk]) == [milk];
    var reopened := TaskManager.Open(m.file);
    var m' := reopened.value;
    listing := m'.ViewTasks();
    assert listing == ["1. [X] Buy milk"];
  }
}
