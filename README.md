# To-do list manager: verified model of the task store and its file format

This project models the core of a console to-do list manager written in C#
(`todo-list-manager/Program.cs`). The core has two parts:

- **The task store** (`TaskManager`). It holds an ordered list of tasks. Each task
  has a description and a completion flag. An important task also has a due date
  and differs only in how it is displayed. The store adds tasks, removes and
  completes them by a 0-based index with a bounds check, and lists them numbered
  from 1. After every change it rewrites the task file.
- **The task file format** (`SaveTasksToFile` / `LoadTasksFromFile`). Each task
  is saved as one line, `<description>|True` or `<description>|False`. Loading
  splits each line on `|`, takes field 0 as the description and parses field 1 as
  a boolean. A malformed line makes start-up fail.

Modules:

- `Wrappers`: `Option` and `Result`.
- `Text`: `Split`, which behaves like `String.Split(char)`, `Join`, and
  `NatToString`, the decimal rendering of a number. `Join` undoes `Split`.
- `Tasks`: the `Task` datatype with its kind, `Basic` or `Important(dueDate)`, and
  `Display`.
- `Codec`: the line codec (`EncodeLine`/`DecodeLine`) and the whole-file codec
  (`Encode`/`Decode`).
- `TaskStore`: the pure list operations `Remove`, `Complete` and `View`, and the
  class `TaskManager`. The class holds `tasks: seq<Task>` and `file`, the lines of
  `tasks.txt` (`None` while the file is absent). `AddTask`, `RemoveTask` and
  `CompleteTask` update both fields in place. `LoadTasksFromFile` changes only
  `tasks`, `SaveTasksToFile` changes only `file`, and `ViewTasks` changes nothing.

The main result is `Codec.RoundTrip`. Saving and then loading gives back the same
tasks, in the same order, with the same descriptions and flags and with every due
date dropped. This holds exactly when no description contains `|`, and both
directions are proved. For a description `a|b`, where neither part contains `|`,
the text `b` after the first `|` is read as the flag:

- Usually the saved file then stops loading. Whenever `b` is not exactly `True` or
  `False`, the line fails with `FlagNotBoolean(b)` (`Codec.DelimiterBreaksLoad`).
  For example, `milk | eggs` fails on ` eggs`.
- In the model, the line loads only when `b` is exactly `True` or `False`. The
  description is then cut to `a`, and the flag becomes `b`, whatever the task's
  own flag was (`Codec.DelimiterCutsDescription`). The flag may be kept, as for an
  uncompleted `a|False` (`Codec.DelimiterTruncatesDescription`), or flipped, as
  for an uncompleted `a|True` (`Codec.DelimiterCorruptsFlag`). The program's
  `bool.Parse` is more lenient (see the `Codec.ParseBool` line under "Left out").
  For example, `milk|true` also loads in the program, as a completed `milk`.

`TaskStore.Session` is a sample session whose every assertion Dafny proves from
the methods' contracts alone. It starts without a file, adds two tasks, completes
one and removes the other, then reopens the saved file.

A line may hold more than one `|`. The code reads only `parts[0]` and
`parts[1]` and ignores any further fields (`Codec.DecodeLineIgnoresExtraFields`).
The due date of an important task is never saved and never reconstructed, so
loaded tasks are always `Basic`.

## Model

| member | source | states |
|---|---|---|
| `Text.NatToString` | todo-list-manager/Program.cs:108 | the number written before a listed task; `Text.NatToStringIsDecimal` proves it is the decimal numeral of that number |
| `Tasks.Display` | todo-list-manager/Program.cs:22-44 | the line shown for a task by Task.Display (lines 22-25) and ImportantTask.Display (lines 41-44); `Tasks.DisplayShowsCompletion` and `Tasks.DisplayShowsDueDate` state its shape |
| `Codec.FormatBool` | todo-list-manager/Program.cs:120 | the flag field written for a task, `True` or `False`; `Codec.ParseBoolInvertsFormat` proves it reads back |
| `Codec.ParseBool` | todo-list-manager/Program.cs:138 | a flag that parses was written as exactly that text by FormatBool |
| `Codec.EncodeLine` | todo-list-manager/Program.cs:120 | the line saved for one task; `Codec.LineRoundTrip` states when it loads back |
| `Codec.Encode` | todo-list-manager/Program.cs:118-121 | the saved file has exactly one line per task; `Codec.RoundTrip` states when it loads back |
| `Codec.DecodeLine` | todo-list-manager/Program.cs:136-140 | a loaded line yields a basic task whose description contains no `\|` |
| `Codec.Decode` | todo-list-manager/Program.cs:133-142 | a successful load yields one task per line, and a failed load names a line of the file |
| `Codec.StripDueDate` | todo-list-manager/Program.cs:140 | a task as a load rebuilds it, with no due date; used by `Codec.LineRoundTrip` |
| `Codec.StripDueDates` | todo-list-manager/Program.cs:140 | a list as a load rebuilds it; `Codec.StripDueDatesKeepsBasic` states what it changes |
| `Codec.DelimiterTruncatesDescription` | todo-list-manager/Program.cs:120-140 | an uncompleted task described `a\|False` reloads as an uncompleted task described `a` |
| `TaskStore.Remove` | todo-list-manager/Program.cs:72-77 | the list after a removal; `TaskStore.RemoveEffect` states its effect |
| `TaskStore.Complete` | todo-list-manager/Program.cs:85-91 | the list after a completion; `TaskStore.CompleteEffect` and `TaskStore.CompleteIdempotent` state its effect |
| `TaskStore.View` | todo-list-manager/Program.cs:100-110 | the listing; `TaskStore.TaskManager.ViewTasks` states its lines |
| `Text.Split` | todo-list-manager/Program.cs:136 | splitting a line on the separator always yields at least one field |
| `Text.JoinExtendsFirst` | todo-list-manager/Program.cs:136 | text put in front of the first field comes out in front of the joined line |
| `Text.SplitJoin` | todo-list-manager/Program.cs:136 | joining the fields of a split with the separator gives back the original line |
| `Text.SplitFieldCount` | todo-list-manager/Program.cs:136 | a split yields exactly one field more than the line has separators |
| `Text.SplitFieldsFree` | todo-list-manager/Program.cs:136 | no field produced by a split contains the separator |
| `Text.SplitWithout` | todo-list-manager/Program.cs:136 | a line without the separator splits into itself alone |
| `Text.SplitAfter` | todo-list-manager/Program.cs:136 | after a separator-free prefix, the first separator closes field 0 and splitting continues on the rest |
| `Text.NatToStringIsDecimal` | todo-list-manager/Program.cs:108 | the number printed before each listed task is a non-empty decimal numeral with no leading zero whose value is the number |
| `Tasks.DisplayShowsCompletion` | todo-list-manager/Program.cs:24 | a task is rendered starting with `[X]` exactly when it is completed and `[ ]` exactly when it is not, then a space and its description |
| `Tasks.DisplayShowsDueDate` | todo-list-manager/Program.cs:41-44 | after the description, a basic task shows nothing more and an important task shows ` (Due: <date>)` |
| `Codec.ParseBoolInvertsFormat` | todo-list-manager/Program.cs:138 | the flag field parses back to the flag that was written, and only the text written for a flag parses to that flag |
| `Codec.StripDueDatesKeepsBasic` | todo-list-manager/Program.cs:140 | forgetting due dates keeps the length, and it changes nothing exactly when every task is basic |
| `Codec.DecodeLineMissingField` | todo-list-manager/Program.cs:136-138 | a line fails to load for lack of a flag field exactly when it contains no `\|` |
| `Codec.DecodeLineIgnoresExtraFields` | todo-list-manager/Program.cs:136-140 | text after a second `\|` does not change what a line loads as |
| `Codec.LineRoundTrip` | todo-list-manager/Program.cs:120-140 | a saved line loads back as the same task without its due date exactly when its description contains no `\|` |
| `Codec.DelimiterCorruptsFlag` | todo-list-manager/Program.cs:120-140 | an uncompleted task described `a\|True` is saved and reloads as a completed task described `a` |
| `Codec.SplitDescriptionWithDelimiter` | todo-list-manager/Program.cs:120-137 | for a description `a\|b`, the saved line splits with field 0 `a` and field 1 `b` |
| `Codec.DelimiterBreaksLoad` | todo-list-manager/Program.cs:120-138 | for every description `a\|b` with `b` not exactly `True` or `False`, the saved line fails to load with `FlagNotBoolean(b)` |
| `Codec.DelimiterCutsDescription` | todo-list-manager/Program.cs:120-140 | for every description `a\|b` with `b` exactly `True` or `False`, the saved line loads as a basic task described `a` whose flag is `b` |
| `Codec.DecodeLineByLine` | todo-list-manager/Program.cs:133-142 | a file loads exactly when every line loads, and then it yields exactly one task per line, in line order |
| `Codec.DecodeFailsAtFirstBadLine` | todo-list-manager/Program.cs:133-141 | a failed load reports a line that exists, every earlier line loads, and that line fails for the reported reason |
| `Codec.DecodeReportsBadLine` | todo-list-manager/Program.cs:133-141 | if the lines before line k load and line k does not, the load fails at line k for that line's reason |
| `Codec.RoundTrip` | todo-list-manager/Program.cs:118-141 | saving then loading gives the same length, order, descriptions and flags with due dates dropped, exactly when no description contains `\|` |
| `TaskStore.RemoveEffect` | todo-list-manager/Program.cs:72-77 | an out-of-range removal changes nothing; an in-range removal shortens the list by one, keeps earlier tasks in place, shifts later ones left, and removes exactly that one task from the multiset |
| `TaskStore.CompleteEffect` | todo-list-manager/Program.cs:85-91 | an out-of-range completion changes nothing; an in-range one sets only that task's flag, and leaves the length, every description and kind, and every other flag unchanged |
| `TaskStore.CompleteIdempotent` | todo-list-manager/Program.cs:91 | completing the same index twice is the same as completing it once |
| `TaskStore.MenuNumberAddressesListedTask` | todo-list-manager/Program.cs:183 | the menu's number n becomes index n - 1; that index is in range exactly when 1 <= n <= the task count, and then it addresses the task listed under number n |
| `TaskStore.SessionListings` | todo-list-manager/Program.cs:106-110 | the listings of the two-task and one-task lists in a sample session are numbered, marked lines |
| `TaskStore.TaskManager.constructor` | todo-list-manager/Program.cs:54-56 | a new manager starts with an empty list over the existing task file |
| `TaskStore.TaskManager.Open` | todo-list-manager/Program.cs:54-58 | start-up succeeds exactly when the file loads; then the list is the loaded tasks and the file is untouched, and otherwise the load's error is reported |
| `TaskStore.TaskManager.AddTask` | todo-list-manager/Program.cs:61-66 | exactly one new basic, uncompleted task with the given description is appended, and the file then holds the whole list |
| `TaskStore.TaskManager.RemoveTask` | todo-list-manager/Program.cs:69-79 | an out-of-range index prints the invalid-number message and leaves the list and the file unchanged; otherwise the task at the index is removed and the file saved |
| `TaskStore.TaskManager.CompleteTask` | todo-list-manager/Program.cs:82-94 | an out-of-range index prints the invalid-number message and leaves the list and the file unchanged; otherwise only that task is completed, the file is saved and the confirmation printed |
| `TaskStore.TaskManager.ViewTasks` | todo-list-manager/Program.cs:97-111 | an empty list prints "No tasks available."; otherwise exactly one line per task, the task at index i shown as `i+1. ` and its display |
| `TaskStore.TaskManager.SaveTasksToFile` | todo-list-manager/Program.cs:114-123 | the file is rewritten to hold exactly one encoded line per task, in list order |
| `TaskStore.TaskManager.LoadTasksFromFile` | todo-list-manager/Program.cs:126-144 | an absent file adds nothing; a loadable file appends its tasks in line order; on the first bad line it reports that line, and the lines before it are already appended |

## Left out

- File I/O (`StreamWriter`, `StreamReader`, `File.Exists`) is not modelled. The file is the sequence of its lines, and an absent file is `None`.
- Line framing by `WriteLine`/`ReadLine` is not modelled. In the C# program, a description containing a carriage return or a line feed would also break the round trip.
- Text encoding is not modelled. A Dafny `char` is a Unicode scalar value, but a C# string can hold a lone UTF-16 surrogate. `StreamWriter`'s default UTF-8 encoding throws on a lone surrogate. Saving such a description therefore aborts the program after `tasks.txt` has been truncated, and the saved list is lost.
- Console output is not modelled. Each message is returned as a sequence of lines instead.
- The interactive menu in `Main` is not modelled, and neither is `int.TryParse` on its input. Only its `n - 1` index conversion is covered, by `TaskStore.MenuNumberAddressesListedTask`.
- 32-bit `int` arithmetic is not modelled. In C#, `n - 1` for the smallest `int` wraps to the largest `int`. That index is out of range too, so the outcome is the same.
- Codec.ParseBool, Codec.ParseBoolInvertsFormat: ParseBool accepts exactly `True` and `False`. `bool.Parse` also accepts any letter case and surrounding white space, so the model rejects some lines the program loads. The "only" half of ParseBoolInvertsFormat holds only for this exact match.
- The due date is an opaque string. `DateTime` and the culture-dependent `ToShortDateString` are not modelled.
- Tasks are modelled as values, not as shared objects mutated in place. Nothing else holds a reference to a task in the list, so no aliasing is lost.
- Exceptions are not modelled as exceptions. A line without `|` (an out-of-range `parts[1]`) becomes `MissingFlagField`, and an unparsable flag becomes `FlagNotBoolean`. The abort of start-up becomes the `Failure` result of `TaskManager.Open`.
- A `null` description is not modelled. One would arise when console input ends.
- The program never constructs an `ImportantTask`. Its constructor is covered only as the `Important` kind of the datatype.
