/**
 * The task entities: the base task and the important task with a due date,
 * and the one line each renders as (Task.Display and ImportantTask.Display).
 */
module Tasks {

  /**
   * Which of the two task classes an entry is. The due date is kept as the
   * text DateTime.ToShortDateString produces; its culture-dependent format is
   * not modelled.
   */
  datatype Kind = Basic | Important(dueDate: string)

  /** A task: its description, whether it is completed, and its kind. */
  datatype Task = Task(description: string, isCompleted: bool, kind: Kind)

  /** The completion box rendered in front of the description. */
  function Mark(isCompleted: bool): string
  {
    if isCompleted then "[X]" else "[ ]"
  }

  /** The text an important task appends after its description. */
  function DueSuffix(kind: Kind): string
  {
    match kind
    case Basic => ""
    case Important(dueDate) => " (Due: " + dueDate + ")"
  }

  /** The line Display writes for a task (without the line terminator). */
  function Display(t: Task): string
  {
    Mark(t.isCompleted) + " " + t.description + DueSuffix(t.kind)
  }

  /**
   * A rendered task starts with "[X]" exactly when it is completed and with
   * "[ ]" exactly when it is not, followed by a space and the description.
   */
  lemma DisplayShowsCompletion(t: Task)
    ensures |Display(t)| >= 4 + |t.description|
    ensures Display(t)[..3] == "[X]" <==> t.isCompleted
    ensures Display(t)[..3] == "[ ]" <==> !t.isCompleted
    ensures Display(t)[3] == ' '
    ensures Display(t)[4..4 + |t.description|] == t.description
  {
    var line := Display(t);
    assert line[..3] == Mark(t.isCompleted);
    assert "[X]" != "[ ]" by { assert "[X]"[1] != "[ ]"[1]; }
  }

  /**
   * After the description a basic task shows nothing more, and an important
   * task shows " (Due: <date>)".
   */
  lemma DisplayShowsDueDate(t: Task)
    ensures var rest := Display(t)[4 + |t.description|..];
      && (t.kind.Basic? ==> rest == "")
      && (t.kind.Important? ==> rest == " (Due: " + t.kind.dueDate + ")")
  {
    var line := Display(t);
    assert line == (Mark(t.isCompleted) + " " + t.description) + DueSuffix(t.kind);
    assert |Mark(t.isCompleted) + " " + t.description| == 4 + |t.description|;
  }
}
