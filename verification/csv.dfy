/**
 * The CSV file the export writes and the import reads: a header line, then
 * one line per task with seven comma-separated fields and the tags joined
 * by '|'. Only id, text, priority, due date, category, completion and tags
 * travel; every other field comes back at its zero value.
 *
 * The import is modelled twice. The functions and lemmas whose names end
 * in `AsWritten` read the due date with the layout the import passes,
 * "2006-01-01"; the others read it with the export's layout, "2006-01-02",
 * the corrected import under which due dates round-trip.
 */
module Csv {
  import opened TodoTypes
  import opened Text
  import opened Dates

  /** The header line: "ID, Text, Priority, DueDate, Category, IsComplete, Tags". */
  const HEADER := "ID, Text" + ", Priority" + ", DueDate" + ", Category" + ", IsComplete" + ", Tags"

  /** Text without a line end, so that it stays one line of the file. */
  predicate SingleLine(s: string) {
    '\n' !in s && '\r' !in s
  }

  /** The %t verb: a field without separators. */
  function FormatBool(b: bool): (r: string)
    ensures ',' !in r && SingleLine(r)
  {
    if b then "true" else "false"
  }

  /** strconv.ParseBool: "1", "t", "T", "TRUE", "true", "True" and their false counterparts. */
  function ParseBool(s: string): (r: Option<bool>)
    ensures r.Some? ==> |s| >= 1 && (r.value <==> s[0] in "1tT")
  {
    if s in ["1", "t", "T", "TRUE", "true", "True"] then Some(true)
    else if s in ["0", "f", "F", "FALSE", "false", "False"] then Some(false)
    else None
  }

  /** ParseBool reads back what the %t verb writes. */
  lemma ParseFormatBool(b: bool)
    ensures ParseBool(FormatBool(b)) == Some(b)
  {
  }

  /**
   * The seven fields of a task's export line, in file order. Only text,
   * category and tags can hold a comma; the fields the program formats
   * itself never do.
   */
  function RowFields(t: Task): (r: seq<string>)
    ensures |r| == 7 && r[1] == t.text && r[4] == t.category
    ensures ',' !in r[0] && ',' !in r[2] && ',' !in r[3] && ',' !in r[5]
  {
    [Itoa(t.id), t.text, Itoa(t.priority), FormatDate(t.due), t.category,
     FormatBool(t.isComplete), Join(t.tags, '|')]
  }

  /**
   * The fields split back: text, category and tags hold no comma, tags hold
   * no '|', and there is at least one tag.
   */
  predicate SplitsBack(t: Task) {
    && ',' !in t.text && ',' !in t.category
    && |t.tags| >= 1
    && (forall i :: 0 <= i < |t.tags| ==> ',' !in t.tags[i] && '|' !in t.tags[i])
  }

  /** The fields split back, none holds a line end, and the due year fits the layout. */
  predicate CsvSafe(t: Task) {
    && SplitsBack(t)
    && SingleLine(t.text) && SingleLine(t.category)
    && (forall i :: 0 <= i < |t.tags| ==> SingleLine(t.tags[i]))
    && Formattable(t.due)
  }

  /** No field of the row holds `c` when text, category and tags do not. */
  lemma RowFieldsFree(t: Task, c: char)
    requires c in [',', '\n', '\r']
    requires c !in t.text && c !in t.category
    requires forall i :: 0 <= i < |t.tags| ==> c !in t.tags[i]
    ensures forall i :: 0 <= i < 7 ==> c !in RowFields(t)[i]
  {
    JoinFree(t.tags, '|', c);
  }

  lemma RowSplitsBack(t: Task)
    ensures SplitsBack(t) ==> Split(Join(RowFields(t), ','), ',') == RowFields(t)
  {
    if SplitsBack(t) {
      RowFieldsFree(t, ',');
      SplitJoin(RowFields(t), ',');
    }
  }

  lemma RowSingleLine(t: Task)
    ensures CsvSafe(t) ==> SingleLine(Join(RowFields(t), ','))
  {
    if CsvSafe(t) {
      RowFieldsFree(t, '\n');
      RowFieldsFree(t, '\r');
      JoinFree(RowFields(t), ',', '\n');
      JoinFree(RowFields(t), ',', '\r');
    }
  }

  /**
   * One export line, without its line end. It splits back into the seven
   * fields when they hold no separator, and it is one line when no field
   * holds a line end.
   */
  function FormatRow(t: Task): (r: string)
    ensures SplitsBack(t) ==> Split(r, ',') == RowFields(t)
    ensures CsvSafe(t) ==> SingleLine(r)
  {
    RowSplitsBack(t);
    RowSingleLine(t);
    Join(RowFields(t), ',')
  }

  /**
   * What the corrected import builds from seven fields. Parse errors
   * are dropped: a bad number reads as 0, a bad flag as false, a bad date as
   * the zero date. Fields the file does not carry are at their zero values.
   */
  function RowTask(f: seq<string>): (t: Task)
    requires |f| == 7
    ensures t.text == f[1] && t.category == f[4] && |t.tags| >= 1
    ensures t.subtasks == [] && t.attachments == [] && t.collaborators == []
    ensures t.estimatedTime == 0 && t.actualTime == 0 && t.notes == "" && t.recurringCron == ""
  {
    NewTask(Atoi(f[0]), Draft(f[1], Atoi(f[2]), ParseDate(f[3]).GetOr(ZERO_DATE), f[4]))
      .(isComplete := ParseBool(f[5]).GetOr(false), tags := Split(f[6], '|'))
  }

  /** What importTaskFromCSV builds, with the "2006-01-01" date layout. */
  function RowTaskAsWritten(f: seq<string>): (t: Task)
    requires |f| == 7
    ensures t == RowTask(f).(due := ParseDateAsWritten(f[3]).GetOr(ZERO_DATE))
  {
    NewTask(Atoi(f[0]), Draft(f[1], Atoi(f[2]), ParseDateAsWritten(f[3]).GetOr(ZERO_DATE), f[4]))
      .(isComplete := ParseBool(f[5]).GetOr(false), tags := Split(f[6], '|'))
  }

  /** One line of the corrected import: a task when it splits into exactly seven fields, else skipped. */
  function ParseRow(line: string): (r: Option<Task>)
    ensures r.Some? <==> Count(line, ',') == 6
  {
    var f := Split(line, ',');
    if |f| != 7 then None else Some(RowTask(f))
  }

  /** One line of importTaskFromCSV: like ParseRow, with the "2006-01-01" date layout. */
  function ParseRowAsWritten(line: string): (r: Option<Task>)
    ensures r.Some? <==> ParseRow(line).Some?
  {
    var f := Split(line, ',');
    if |f| != 7 then None else Some(RowTaskAsWritten(f))
  }

  /** Lines each followed by a line end, as the export's writer emits them. */
  function Terminated(lines: seq<string>): string {
    if lines == [] then "" else lines[0] + "\n" + Terminated(lines[1..])
  }

  function FormatRows(tasks: seq<Task>): (r: seq<string>)
    ensures |r| == |tasks|
  {
    if tasks == [] then []
    else FormatRows(tasks[..|tasks| - 1]) + [FormatRow(tasks[|tasks| - 1])]
  }

  /** A header line, then one line per task. */
  function CsvText(header: string, tasks: seq<Task>): (r: string)
    ensures IsPrefix(header + "\n", r)
  {
    var lines := [header] + FormatRows(tasks);
    assert lines[0] == header && lines[1..] == FormatRows(tasks);
    Terminated(lines)
  }

  /** The text exportTaskToCSV writes: it starts with the header line. */
  function ExportCSV(tasks: seq<Task>): (r: string)
    ensures IsPrefix(HEADER + "\n", r)
  {
    CsvText(HEADER, tasks)
  }

  /** One trailing carriage return dropped, as bufio.ScanLines does. */
  function DropCR(line: string): (r: string)
    ensures |r| <= |line| && r == line[..|r|]
  {
    if |line| > 0 && line[|line| - 1] == '\r' then line[..|line| - 1] else line
  }

  /**
   * The lines bufio.Scanner yields: the text split at '\n', without an empty
   * piece after a final line end, each stripped of one trailing '\r'.
   */
  function ScanLines(content: string): (r: seq<string>)
    ensures content == "" ==> r == []
    ensures forall i :: 0 <= i < |r| ==> '\n' !in r[i]
  {
    var parts := Split(content, '\n');
    var kept := if parts[|parts| - 1] == "" then parts[..|parts| - 1] else parts;
    var r := seq(|kept|, i requires 0 <= i < |kept| => DropCR(kept[i]));
    assert forall i :: 0 <= i < |r| ==> '\n' !in r[i] by {
      forall i | 0 <= i < |r|
        ensures '\n' !in r[i]
      {
        assert '\n' !in kept[i];
        assert r[i] == kept[i][..|r[i]|];
      }
    }
    r
  }

  /** The tasks the corrected import appends for these lines: at most one per line. */
  function ParseRows(lines: seq<string>): (r: seq<Task>)
    ensures |r| <= |lines|
  {
    if lines == [] then []
    else
      var last := ParseRow(lines[|lines| - 1]);
      ParseRows(lines[..|lines| - 1]) + (if last.Some? then [last.value] else [])
  }

  /** The tasks importTaskFromCSV appends for these lines: at most one per line. */
  function ParseRowsAsWritten(lines: seq<string>): (r: seq<Task>)
    ensures |r| <= |lines|
  {
    if lines == [] then []
    else
      var last := ParseRowAsWritten(lines[|lines| - 1]);
      ParseRowsAsWritten(lines[..|lines| - 1]) + (if last.Some? then [last.value] else [])
  }

  /** The tasks the corrected import appends: one per line after the first that parses. */
  function ImportedTasks(content: string): (r: seq<Task>)
    ensures |r| <= if ScanLines(content) == [] then 0 else |ScanLines(content)| - 1
  {
    var lines := ScanLines(content);
    if lines == [] then [] else ParseRows(lines[1..])
  }

  /** The tasks importTaskFromCSV appends: one per line after the first that parses. */
  function ImportedTasksAsWritten(content: string): (r: seq<Task>)
    ensures |r| <= if ScanLines(content) == [] then 0 else |ScanLines(content)| - 1
  {
    var lines := ScanLines(content);
    if lines == [] then [] else ParseRowsAsWritten(lines[1..])
  }

  // ------------------------------------------------------------ round trip

  /** What of a task survives export and the corrected import. */
  function CsvView(t: Task): Task {
    NewTask(t.id, Draft(t.text, t.priority, t.due, t.category))
      .(isComplete := t.isComplete, tags := t.tags)
  }

  function CsvViews(tasks: seq<Task>): (r: seq<Task>)
    ensures |r| == |tasks|
  {
    if tasks == [] then [] else CsvViews(tasks[..|tasks| - 1]) + [CsvView(tasks[|tasks| - 1])]
  }

  /**
   * The due date importTaskFromCSV makes of an exported date: the day of the
   * month becomes the month and the day becomes 1; after the 12th it is the
   * zero date.
   */
  function DueAsWritten(d: Date): (r: Date)
    ensures r.day == 1 && (Formattable(d) ==> Formattable(r))
  {
    if d.day <= 12 then Date(d.year, d.day, 1) else ZERO_DATE
  }

  /** DueAsWritten is what the import's layout makes of an exported date. */
  lemma DueAsWrittenOfFormatDate(d: Date)
    requires Formattable(d)
    ensures ParseDateAsWritten(FormatDate(d)).GetOr(ZERO_DATE) == DueAsWritten(d)
  {
    ParseFormatDateAsWritten(d);
  }

  /** What of a task survives export and importTaskFromCSV. */
  function CsvViewAsWritten(t: Task): Task {
    CsvView(t).(due := DueAsWritten(t.due))
  }

  function CsvViewsAsWritten(tasks: seq<Task>): (r: seq<Task>)
    ensures |r| == |tasks|
  {
    if tasks == [] then []
    else CsvViewsAsWritten(tasks[..|tasks| - 1]) + [CsvViewAsWritten(tasks[|tasks| - 1])]
  }

  /** The seven fields of a task whose fields split back build its CSV view, with the date as parsed. */
  lemma RowTaskOfFields(t: Task)
    requires SplitsBack(t)
    ensures RowTask(RowFields(t)) == CsvView(t).(due := ParseDate(FormatDate(t.due)).GetOr(ZERO_DATE))
  {
    var f := RowFields(t);
    var due := ParseDate(f[3]).GetOr(ZERO_DATE);
    assert f[1] == t.text && f[4] == t.category && f[3] == FormatDate(t.due);
    assert Atoi(f[0]) == t.id by { ParseIntOfItoa(t.id); }
    assert Atoi(f[2]) == t.priority by { ParseIntOfItoa(t.priority); }
    assert ParseBool(f[5]).GetOr(false) == t.isComplete by { ParseFormatBool(t.isComplete); }
    assert Split(f[6], '|') == t.tags by { SplitJoin(t.tags, '|'); }
    calc {
      RowTask(f);
      NewTask(Atoi(f[0]), Draft(f[1], Atoi(f[2]), due, f[4]))
        .(isComplete := ParseBool(f[5]).GetOr(false), tags := Split(f[6], '|'));
      NewTask(t.id, Draft(t.text, t.priority, due, t.category))
        .(isComplete := t.isComplete, tags := t.tags);
    }
  }

  /**
   * As written, id, text, priority, category, flag and tags come back
   * whenever the fields split back, whatever the line ends and the year:
   * only the due date is changed.
   */
  lemma SixFieldsAsWritten(t: Task)
    requires SplitsBack(t)
    ensures ParseRowAsWritten(FormatRow(t)) ==
      Some(CsvView(t).(due := ParseDateAsWritten(FormatDate(t.due)).GetOr(ZERO_DATE)))
  {
    RowTaskOfFields(t);
  }

  /** An export line is imported by the corrected import as its task's CSV view. */
  lemma RowRoundTrip(t: Task)
    requires CsvSafe(t)
    ensures ParseRow(FormatRow(t)) == Some(CsvView(t))
  {
    RowTaskOfFields(t);
    ParseFormatDate(t.due);
  }

  /** An export line is imported by importTaskFromCSV with its due date changed as DueAsWritten says. */
  lemma RowRoundTripAsWritten(t: Task)
    requires CsvSafe(t)
    ensures ParseRowAsWritten(FormatRow(t)) == Some(CsvViewAsWritten(t))
  {
    SixFieldsAsWritten(t);
    DueAsWrittenOfFormatDate(t.due);
  }

  /** With the corrected import, a task without tags comes back with one empty tag. */
  lemma EmptyTagsComeBackAsOneEmptyTag(t: Task)
    requires CsvSafe(t.(tags := [""]))
    requires t.tags == []
    ensures ParseRow(FormatRow(t)) == Some(CsvView(t).(tags := [""]))
  {
    RowRoundTrip(t.(tags := [""]));
    assert FormatRow(t) == FormatRow(t.(tags := [""]));
  }

  /**
   * With importTaskFromCSV, a task without tags also comes back with one
   * empty tag, and with its due date as the "2006-01-01" layout reads it.
   */
  lemma EmptyTagsComeBackAsOneEmptyTagAsWritten(t: Task)
    requires t.tags == [] && ',' !in t.text && ',' !in t.category
    ensures ParseRowAsWritten(FormatRow(t)) ==
      Some(CsvView(t).(tags := [""], due := ParseDateAsWritten(FormatDate(t.due)).GetOr(ZERO_DATE)))
  {
    SixFieldsAsWritten(t.(tags := [""]));
    assert FormatRow(t) == FormatRow(t.(tags := [""]));
  }

  lemma {:induction false} TerminatedIsJoin(lines: seq<string>)
    ensures Terminated(lines) == Join(lines + [""], '\n')
  {
    if lines != [] {
      TerminatedIsJoin(lines[1..]);
      assert (lines + [""])[1..] == lines[1..] + [""];
    }
  }

  /** One more line written: the text so far, the line, a line end. */
  lemma {:induction false} TerminatedSnoc(lines: seq<string>, line: string)
    ensures Terminated(lines + [line]) == Terminated(lines) + line + "\n"
  {
    if lines != [] {
      TerminatedSnoc(lines[1..], line);
      assert (lines + [line])[1..] == lines[1..] + [line];
    }
  }

  /** The export text for the first `i + 1` tasks: that for the first `i`, then line `i`. */
  lemma ExportPrefixSnoc(tasks: seq<Task>, i: nat)
    requires i < |tasks|
    ensures Terminated([HEADER] + FormatRows(tasks[..i + 1]))
      == Terminated([HEADER] + FormatRows(tasks[..i])) + FormatRow(tasks[i]) + "\n"
  {
    assert tasks[..i + 1][..i] == tasks[..i];
    assert [HEADER] + FormatRows(tasks[..i + 1]) == ([HEADER] + FormatRows(tasks[..i])) + [FormatRow(tasks[i])];
    TerminatedSnoc([HEADER] + FormatRows(tasks[..i]), FormatRow(tasks[i]));
  }

  /** The export text for no task: the header line alone. */
  lemma ExportPrefixEmpty(tasks: seq<Task>)
    ensures Terminated([HEADER] + FormatRows(tasks[..0])) == HEADER + "\n"
  {
    assert [HEADER] + FormatRows(tasks[..0]) == [HEADER];
  }

  lemma DropCRKeepsLine(line: string)
    requires '\r' !in line
    ensures DropCR(line) == line
  {
    if |line| > 0 {
      assert line[|line| - 1] in line;
    }
  }

  /** Lines without line ends, each followed by one, split at '\n' into those lines and an empty piece. */
  lemma SplitTerminated(lines: seq<string>)
    requires forall i :: 0 <= i < |lines| ==> SingleLine(lines[i])
    ensures Split(Terminated(lines), '\n') == lines + [""]
  {
    var padded := lines + [""];
    forall i | 0 <= i < |padded|
      ensures '\n' !in padded[i]
    {
      if i < |lines| {
        assert padded[i] == lines[i];
      }
    }
    TerminatedIsJoin(lines);
    SplitJoin(padded, '\n');
  }

  /** Lines without line ends, each followed by one, are scanned back as they were. */
  lemma ScanTerminated(lines: seq<string>)
    requires forall i :: 0 <= i < |lines| ==> SingleLine(lines[i])
    ensures ScanLines(Terminated(lines)) == lines
  {
    SplitTerminated(lines);
    var parts := lines + [""];
    assert parts[|parts| - 1] == "" && parts[..|parts| - 1] == lines;
    var r := ScanLines(Terminated(lines));
    forall i | 0 <= i < |lines|
      ensures r[i] == lines[i]
    {
      DropCRKeepsLine(lines[i]);
    }
  }

  lemma {:induction false} ParseRowsOfFormatRows(tasks: seq<Task>)
    requires forall i :: 0 <= i < |tasks| ==> CsvSafe(tasks[i])
    ensures ParseRows(FormatRows(tasks)) == CsvViews(tasks)
  {
    if tasks != [] {
      var n := |tasks| - 1;
      ParseRowsOfFormatRows(tasks[..n]);
      RowRoundTrip(tasks[n]);
      ParseRowsSnoc(FormatRows(tasks[..n]), FormatRow(tasks[n]));
    }
  }

  lemma {:induction false} ParseRowsAsWrittenOfFormatRows(tasks: seq<Task>)
    requires forall i :: 0 <= i < |tasks| ==> CsvSafe(tasks[i])
    ensures ParseRowsAsWritten(FormatRows(tasks)) == CsvViewsAsWritten(tasks)
  {
    if tasks != [] {
      var n := |tasks| - 1;
      ParseRowsAsWrittenOfFormatRows(tasks[..n]);
      RowRoundTripAsWritten(tasks[n]);
      ParseRowsAsWrittenSnoc(FormatRows(tasks[..n]), FormatRow(tasks[n]));
    }
  }

  lemma {:induction false} FormatRowsSingleLine(tasks: seq<Task>)
    requires forall i :: 0 <= i < |tasks| ==> CsvSafe(tasks[i])
    ensures forall i :: 0 <= i < |tasks| ==> SingleLine(FormatRows(tasks)[i])
  {
    if tasks != [] {
      var n := |tasks| - 1;
      FormatRowsSingleLine(tasks[..n]);
      var r := FormatRows(tasks);
      assert r == FormatRows(tasks[..n]) + [FormatRow(tasks[n])];
      forall i | 0 <= i < |tasks|
        ensures SingleLine(r[i])
      {
        if i < n {
          assert tasks[..n][i] == tasks[i];
        }
      }
    }
  }

  /** Both imports skip the first line, whatever it says, and parse every line after it. */
  lemma ImportAfterFirstLine(first: string, rows: seq<string>)
    requires SingleLine(first)
    requires forall i :: 0 <= i < |rows| ==> SingleLine(rows[i])
    ensures ImportedTasks(Terminated([first] + rows)) == ParseRows(rows)
    ensures ImportedTasksAsWritten(Terminated([first] + rows)) == ParseRowsAsWritten(rows)
  {
    var lines := [first] + rows;
    forall i | 0 <= i < |lines|
      ensures SingleLine(lines[i])
    {
      if i > 0 {
        assert lines[i] == rows[i - 1];
      }
    }
    ScanTerminated(lines);
    assert lines[1..] == rows;
  }

  lemma HeaderSingleLine()
    ensures SingleLine(HEADER)
  {
  }

  /**
   * Any one-line header, then the rows of safe tasks: the corrected import
   * gives back those tasks' CSV views, and importTaskFromCSV the same views
   * with their due dates changed as DueAsWritten says.
   */
  lemma ImportOfRows(first: string, tasks: seq<Task>)
    ensures SingleLine(first) && (forall i :: 0 <= i < |tasks| ==> CsvSafe(tasks[i])) ==>
      && ImportedTasks(CsvText(first, tasks)) == CsvViews(tasks)
      && ImportedTasksAsWritten(CsvText(first, tasks)) == CsvViewsAsWritten(tasks)
  {
    if SingleLine(first) && (forall i :: 0 <= i < |tasks| ==> CsvSafe(tasks[i])) {
      FormatRowsSingleLine(tasks);
      ImportAfterFirstLine(first, FormatRows(tasks));
      ParseRowsOfFormatRows(tasks);
      ParseRowsAsWrittenOfFormatRows(tasks);
    }
  }

  /** The corrected import of what the export wrote gives back every task's CSV view, in order. */
  lemma ExportImportRoundTrip(tasks: seq<Task>)
    requires forall i :: 0 <= i < |tasks| ==> CsvSafe(tasks[i])
    ensures ImportedTasks(ExportCSV(tasks)) == CsvViews(tasks)
  {
    HeaderSingleLine();
    ImportOfRows(HEADER, tasks);
  }

  /**
   * importTaskFromCSV of what the export wrote gives back every task's CSV
   * view, in order, except that each due date becomes (year, day, 1), or
   * the zero date after the 12th.
   */
  lemma ExportImportAsWritten(tasks: seq<Task>)
    requires forall i :: 0 <= i < |tasks| ==> CsvSafe(tasks[i])
    ensures ImportedTasksAsWritten(ExportCSV(tasks)) == CsvViewsAsWritten(tasks)
  {
    HeaderSingleLine();
    ImportOfRows(HEADER, tasks);
  }

  /** The tasks of lines 1 to `i`: those of lines 1 to `i - 1`, then line `i`'s if it has seven fields. */
  lemma ImportStepAsWritten(lines: seq<string>, i: nat)
    requires 1 <= i < |lines|
    ensures var f := Split(lines[i], ',');
      ParseRowsAsWritten(lines[1..i + 1]) ==
        ParseRowsAsWritten(lines[1..i]) + (if |f| == 7 then [RowTaskAsWritten(f)] else [])
  {
    assert lines[1..i + 1] == lines[1..i] + [lines[i]];
    ParseRowsAsWrittenSnoc(lines[1..i], lines[i]);
  }

  /** ParseRows of more lines: the tasks of the first lines, then those of the next one. */
  lemma ParseRowsSnoc(lines: seq<string>, line: string)
    ensures ParseRows(lines + [line]) ==
      ParseRows(lines) + (if ParseRow(line).Some? then [ParseRow(line).value] else [])
  {
    assert (lines + [line])[..|lines|] == lines;
  }

  lemma ParseRowsAsWrittenSnoc(lines: seq<string>, line: string)
    ensures ParseRowsAsWritten(lines + [line]) ==
      ParseRowsAsWritten(lines) + (if ParseRowAsWritten(line).Some? then [ParseRowAsWritten(line).value] else [])
  {
    assert (lines + [line])[..|lines|] == lines;
  }
}
