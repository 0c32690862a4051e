/**
 * The tasks.txt line format: one task per line, "<description>|True" or
 * "<description>|False", written by SaveTasksToFile and read back by
 * LoadTasksFromFile. The file itself is its sequence of lines.
 */
module Codec {
  import opened Wrappers
  import opened Text
  import opened Tasks

  /** The field separator of a saved line. */
  const Delimiter: char := '|'

  /** Boolean.ToString: "True" or "False". */
  function FormatBool(b: bool): string
  {
    if b then "True" else "False"
  }

  /** Boolean.Parse, restricted to the exact texts FormatBool writes. */
  function ParseBool(s: string): (b: Option<bool>)
    ensures b.Some? ==> FormatBool(b.value) == s
  {
    if s == "True" then Some(true)
    else if s == "False" then Some(false)
    else None
  }

  /** ParseBool reads back exactly what FormatBool writes, and nothing else. */
  lemma ParseBoolInvertsFormat(s: string, b: bool)
    ensures ParseBool(FormatBool(b)) == Some(b)
    ensures ParseBool(s) == Some(b) <==> s == FormatBool(b)
  {
  }

  /** The line SaveTasksToFile writes for one task. */
  function EncodeLine(t: Task): string
  {
    t.description + [Delimiter] + FormatBool(t.isCompleted)
  }

  /** The whole file SaveTasksToFile writes: one line per task, in list order. */
  function Encode(ts: seq<Task>): (lines: seq<string>)
    ensures |lines| == |ts|
  {
    seq(|ts|, i requires 0 <= i < |ts| => EncodeLine(ts[i]))
  }

  /** Why one line fails to load. */
  datatype LineError =
    | MissingFlagField          // no '|': parts[1] is out of range
    | FlagNotBoolean(field: string)  // parts[1] is not a boolean

  /** A failed load: the 0-based line that failed and why. */
  datatype LoadError = LoadError(line: nat, reason: LineError)

  /**
   * One loaded line: split on '|', field 0 is the description and field 1
   * the flag; further fields are ignored. Loaded tasks are always basic.
   */
  function DecodeLine(line: string): (r: Result<Task, LineError>)
    ensures r.Success? ==> r.value.kind == Basic && Delimiter !in r.value.description
  {
    var parts := Split(line, Delimiter);
    SplitFieldsFree(line, Delimiter);
    if |parts| < 2 then Failure(MissingFlagField)
    else
      match ParseBool(parts[1])
      case None => Failure(FlagNotBoolean(parts[1]))
      case Some(b) => Success(Task(parts[0], b, Basic))
  }

  /**
   * The whole file, line by line in order; the first line that fails stops
   * the load with its error.
   */
  function Decode(lines: seq<string>): (r: Result<seq<Task>, LoadError>)
    ensures r.Success? ==> |r.value| == |lines|
    ensures r.Failure? ==> r.error.line < |lines|
    decreases |lines|
  {
    if lines == [] then Success([])
    else
      var n := |lines| - 1;
      match Decode(lines[..n])
      case Failure(e) => Failure(e)
      case Success(ts) =>
        match DecodeLine(lines[n])
        case Failure(k) => Failure(LoadError(n, k))
        case Success(t) => Success(ts + [t])
  }

  /** The lines of the task file; an absent file reads as no lines. */
  function Lines(file: Option<seq<string>>): seq<string>
  {
    match file
    case None => []
    case Some(lines) => lines
  }

  /** A task as a load reconstructs it: any due date is gone. */
  function StripDueDate(t: Task): Task
  {
    t.(kind := Basic)
  }

  function StripDueDates(ts: seq<Task>): seq<Task>
  {
    seq(|ts|, i requires 0 <= i < |ts| => StripDueDate(ts[i]))
  }

  /** Stripping changes nothing exactly when every task is already basic. */
  lemma StripDueDatesKeepsBasic(ts: seq<Task>)
    ensures |StripDueDates(ts)| == |ts|
    ensures StripDueDates(ts) == ts <==> forall i :: 0 <= i < |ts| ==> ts[i].kind == Basic
  {
    if StripDueDates(ts) == ts {
      forall i | 0 <= i < |ts| ensures ts[i].kind == Basic {
        assert StripDueDates(ts)[i] == StripDueDate(ts[i]);
      }
    }
  }

  /** A line loads with MissingFlagField exactly when it has no '|'. */
  lemma DecodeLineMissingField(line: string)
    ensures DecodeLine(line) == Failure(MissingFlagField) <==> Delimiter !in line
  {
    SplitFieldCount(line, Delimiter);
  }

  /** Fields after the second one do not affect what a line loads as. */
  lemma DecodeLineIgnoresExtraFields(description: string, flag: string, rest: string)
    requires Delimiter !in description && Delimiter !in flag
    ensures DecodeLine(description + [Delimiter] + flag + [Delimiter] + rest)
         == DecodeLine(description + [Delimiter] + flag)
  {
    SplitAfter(description, flag + [Delimiter] + rest, Delimiter);
    assert description + [Delimiter] + flag + [Delimiter] + rest
        == description + [Delimiter] + (flag + [Delimiter] + rest);
    SplitAfter(flag, rest, Delimiter);
    SplitAfter(description, flag, Delimiter);
    SplitWithout(flag, Delimiter);
  }

  /**
   * A saved line loads back as the same task, minus its due date, exactly
   * when the description has no '|'.
   */
  lemma LineRoundTrip(t: Task)
    ensures DecodeLine(EncodeLine(t)) == Success(StripDueDate(t)) <==> Delimiter !in t.description
  {
    var flag := FormatBool(t.isCompleted);
    var parts := Split(EncodeLine(t), Delimiter);
    if Delimiter !in t.description {
      SplitAfter(t.description, flag, Delimiter);
      SplitWithout(flag, Delimiter);
      assert parts == [t.description, flag];
    } else {
      SplitFieldsFree(EncodeLine(t), Delimiter);
      assert Delimiter !in parts[0];
    }
  }

  /** A '|' in a description can silently change the loaded flag. */
  lemma DelimiterCorruptsFlag()
    ensures DecodeLine(EncodeLine(Task("a|True", false, Basic))) == Success(Task("a", true, Basic))
  {
    assert "a|True" == "a" + [Delimiter] + "True";
    DelimiterCutsDescription("a", "True", Task("a|True", false, Basic));
  }

  /**
   * A description whose text after its first '|' is the literal "False" is cut
   * at that '|', and here the flag survives.
   */
  lemma DelimiterTruncatesDescription()
    ensures DecodeLine(EncodeLine(Task("a|False", false, Basic))) == Success(Task("a", false, Basic))
  {
    assert "a|False" == "a" + [Delimiter] + "False";
    DelimiterCutsDescription("a", "False", Task("a|False", false, Basic));
  }

  /** The flag field a saved line holds when its description is `a|b`. */
  lemma SplitDescriptionWithDelimiter(a: string, b: string, t: Task)
    requires Delimiter !in a && Delimiter !in b
    requires t.description == a + [Delimiter] + b
    ensures var parts := Split(EncodeLine(t), Delimiter);
      |parts| >= 2 && parts[0] == a && parts[1] == b
  {
    var flag := FormatBool(t.isCompleted);
    assert EncodeLine(t) == a + [Delimiter] + (b + [Delimiter] + flag);
    SplitAfter(a, b + [Delimiter] + flag, Delimiter);
    SplitAfter(b, flag, Delimiter);
  }

  /**
   * The usual effect of a '|' in a description: the text after the first '|'
   * is read as the flag, and unless it is exactly "True" or "False" the saved
   * line no longer loads.
   */
  lemma DelimiterBreaksLoad(a: string, b: string, t: Task)
    requires Delimiter !in a && Delimiter !in b
    requires t.description == a + [Delimiter] + b
    requires b != "True" && b != "False"
    ensures DecodeLine(EncodeLine(t)) == Failure(FlagNotBoolean(b))
  {
    SplitDescriptionWithDelimiter(a, b, t);
  }

  /**
   * The special case: when the text after the first '|' is "True" or "False",
   * the line loads, the description is cut at that '|', and the flag becomes
   * that text, whatever the task's own flag was.
   */
  lemma DelimiterCutsDescription(a: string, b: string, t: Task)
    requires Delimiter !in a && Delimiter !in b
    requires t.description == a + [Delimiter] + b
    requires b == "True" || b == "False"
    ensures DecodeLine(EncodeLine(t)) == Success(Task(a, b == "True", Basic))
  {
    SplitDescriptionWithDelimiter(a, b, t);
  }

  /**
   * A file loads exactly when each of its lines does, and then it loads as
   * one task per line, in line order.
   */
  lemma {:induction false} DecodeLineByLine(lines: seq<string>)
    ensures Decode(lines).Success? <==> forall i :: 0 <= i < |lines| ==> DecodeLine(lines[i]).Success?
    ensures Decode(lines).Success? ==>
      && |Decode(lines).value| == |lines|
      && forall i :: 0 <= i < |lines| ==> Decode(lines).value[i] == DecodeLine(lines[i]).value
    decreases |lines|
  {
    if lines != [] {
      var n := |lines| - 1;
      var init := lines[..n];
      DecodeLineByLine(init);
      assert forall i :: 0 <= i < n ==> init[i] == lines[i];
    }
  }

  /**
   * A failed load names the first failing line: every line before it loads,
   * and that line fails with the reported reason.
   */
  lemma {:induction false} DecodeFailsAtFirstBadLine(lines: seq<string>)
    requires Decode(lines).Failure?
    ensures var e := Decode(lines).error;
      && e.line < |lines|
      && Decode(lines[..e.line]).Success?
      && DecodeLine(lines[e.line]) == Failure(e.reason)
    decreases |lines|
  {
    var n := |lines| - 1;
    if Decode(lines[..n]).Failure? {
      DecodeFailsAtFirstBadLine(lines[..n]);
      var e := Decode(lines[..n]).error;
      assert lines[..n][..e.line] == lines[..e.line];
    }
  }

  /** Conversely, a load whose lines before `k` succeed and whose line `k` fails reports line `k`. */
  lemma {:induction false} DecodeReportsBadLine(lines: seq<string>, k: nat)
    requires k < |lines|
    requires Decode(lines[..k]).Success?
    requires DecodeLine(lines[k]).Failure?
    ensures Decode(lines) == Failure(LoadError(k, DecodeLine(lines[k]).error))
    decreases |lines|
  {
    var n := |lines| - 1;
    if k < n {
      assert lines[..n][..k] == lines[..k];
      DecodeReportsBadLine(lines[..n], k);
    } else {
      assert lines[..n] == lines[..k];
    }
  }

  /**
   * Saving then loading gives back the same tasks in the same order, with the
   * same descriptions and flags and every due date dropped, exactly when no
   * description contains '|'.
   */
  lemma RoundTrip(ts: seq<Task>)
    ensures Decode(Encode(ts)) == Success(StripDueDates(ts))
        <==> forall i :: 0 <= i < |ts| ==> Delimiter !in ts[i].description
  {
    var lines := Encode(ts);
    DecodeLineByLine(lines);
    if forall i :: 0 <= i < |ts| ==> Delimiter !in ts[i].description {
      forall i | 0 <= i < |ts| ensures DecodeLine(lines[i]) == Success(StripDueDate(ts[i])) {
        LineRoundTrip(ts[i]);
      }
      assert Decode(lines).value == StripDueDates(ts);
    } else {
      var i :| 0 <= i < |ts| && Delimiter in ts[i].description;
      LineRoundTrip(ts[i]);
      if Decode(lines).Success? {
        assert Decode(lines).value[i] != StripDueDates(ts)[i];
      }
    }
  }
}
