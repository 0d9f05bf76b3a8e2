/**
 * The program's state: the list of tasks held in memory and the list last
 * written to the data file. Every command that finds what it looks for
 * changes the list in place and then saves it; a command that finds
 * nothing leaves both alone.
 */
module TodoStore {
  import opened TodoTypes
  import opened Text
  import opened Queries
  import opened Repository
  import opened Csv

  /** The `-add-collaborator=taskID,collaborator` argument: Atoi of the text before the first comma, and the rest, commas included, as the name. */
  function ParseCollaboratorArg(arg: string): (r: Option<(int, string)>)
    ensures r.Some? <==> ',' in arg
    ensures r.Some? ==> exists idText ::
      && ',' !in idText && arg == idText + "," + r.value.1 && r.value.0 == Atoi(idText)
  {
    var parts := SplitFirstOnly(arg, ',');
    if |parts| != 2 then None
    else
      assert arg == parts[0] + "," + parts[1];
      Some((Atoi(parts[0]), parts[1]))
  }

  /** An id written out, a comma and any name, even one with commas, is read back as that id and name. */
  lemma CollaboratorArgRoundTrip(id: int, name: string)
    ensures ParseCollaboratorArg(Itoa(id) + "," + name) == Some((id, name))
  {
    SplitFirstOnlyAt(Itoa(id), name, ',');
    assert Itoa(id) + [','] + name == Itoa(id) + "," + name;
    ParseIntOfItoa(id);
  }

  /** An id field that is not a number is read as id 0. */
  lemma CollaboratorArgBadIdIsZero(name: string)
    ensures ParseCollaboratorArg("x," + name) == Some((0, name))
  {
    SplitFirstOnlyAt("x", name, ',');
    assert "x" + [','] + name == "x," + name;
    assert !AllDigits("x");
  }

  /** The to-do list: the tasks in memory and the tasks in the data file. */
  class TodoList {
    /** The tasks in memory, in list order. */
    var tasks: seq<Task>
    /** The tasks the data file holds: what the last save wrote, or what was loaded. */
    var file: seq<Task>

    /** The state after a successful load: memory and file agree. */
    constructor (loaded: seq<Task>)
      ensures tasks == loaded && file == loaded
    {
      tasks := loaded;
      file := loaded;
    }

    /** add: append a new, incomplete task numbered after the last one, then save. */
    method Add(d: Draft)
      modifies this
      ensures tasks == Added(old(tasks), d)
      ensures file == tasks
    {
      var newId := 1;
      if |tasks| > 0 {
        newId := tasks[|tasks| - 1].id + 1;
      }
      tasks := tasks + [NewTask(newId, d)];
      file := tasks;
    }

    /** remove: splice out the first task with the id and save, or report it missing. */
    method Remove(id: int) returns (found: bool)
      modifies this
      ensures found <==> FindFirst(old(tasks), id).Some?
      ensures tasks == RemoveFirst(old(tasks), id)
      ensures file == if found then tasks else old(file)
    {
      var i := 0;
      while i < |tasks|
        invariant 0 <= i <= |tasks|
        invariant forall j :: 0 <= j < i ==> tasks[j].id != id
      {
        if tasks[i].id == id {
          assert FindFirst(tasks, id) == Some(i);
          tasks := tasks[..i] + tasks[i + 1..];
          file := tasks;
          return true;
        }
        i := i + 1;
      }
      return false;
    }

    /** The loop the by-id commands share: edit the first task with the id and save. */
    method Update(id: int, e: Edit) returns (found: bool)
      modifies this
      ensures found <==> FindFirst(old(tasks), id).Some?
      ensures tasks == UpdateFirst(old(tasks), id, e)
      ensures file == if found then tasks else old(file)
    {
      var i := 0;
      while i < |tasks|
        invariant 0 <= i <= |tasks|
        invariant forall j :: 0 <= j < i ==> tasks[j].id != id
      {
        if tasks[i].id == id {
          assert FindFirst(tasks, id) == Some(i);
          tasks := tasks[i := Apply(tasks[i], e)];
          file := tasks;
          return true;
        }
        i := i + 1;
      }
      return false;
    }

    /** markTaskComplete: the first task with the id becomes complete. */
    method MarkTaskComplete(id: int) returns (found: bool)
      modifies this
      ensures found <==> FindFirst(old(tasks), id).Some?
      ensures tasks == UpdateFirst(old(tasks), id, MarkComplete)
      ensures file == if found then tasks else old(file)
    {
      found := Update(id, MarkComplete);
    }

    /** addSubtask: the first task with the id gains a subtask numbered after its last one. */
    method AddSubtask(taskId: int, text: string) returns (found: bool)
      modifies this
      ensures found <==> FindFirst(old(tasks), taskId).Some?
      ensures tasks == UpdateFirst(old(tasks), taskId, AppendSubtask(text))
      ensures file == if found then tasks else old(file)
    {
      found := Update(taskId, AppendSubtask(text));
    }

    /** addAttachment: the first task with the id gains the file name. */
    method AddAttachment(taskId: int, filename: string) returns (found: bool)
      modifies this
      ensures found <==> FindFirst(old(tasks), taskId).Some?
      ensures tasks == UpdateFirst(old(tasks), taskId, AttachFile(filename))
      ensures file == if found then tasks else old(file)
    {
      found := Update(taskId, AttachFile(filename));
    }

    /** addCollaborator: the first task with the id gains the collaborator. */
    method AddCollaborator(id: int, collaborator: string) returns (found: bool)
      modifies this
      ensures found <==> FindFirst(old(tasks), id).Some?
      ensures tasks == UpdateFirst(old(tasks), id, AddPerson(collaborator))
      ensures file == if found then tasks else old(file)
    {
      found := Update(id, AddPerson(collaborator));
    }

    /**
     * The `-add-collaborator` command: an argument without a comma is
     * refused; otherwise the text before the first comma is the id and the
     * rest the collaborator.
     */
    method AddCollaboratorFlag(arg: string) returns (accepted: bool, found: bool)
      modifies this
      ensures accepted <==> ',' in arg
      ensures !accepted ==> !found && tasks == old(tasks) && file == old(file)
      ensures accepted ==>
        var (id, name) := ParseCollaboratorArg(arg).value;
        && (found <==> FindFirst(old(tasks), id).Some?)
        && tasks == UpdateFirst(old(tasks), id, AddPerson(name))
        && file == if found then tasks else old(file)
    {
      var parts := SplitFirstOnly(arg, ',');
      if |parts| != 2 {
        return false, false;
      }
      var taskId := Atoi(parts[0]);
      accepted := true;
      found := AddCollaborator(taskId, parts[1]);
    }

    /**
     * list: the tasks of the category (all of them for ""), sorted by the
     * key. For "" the slice sorted is the list itself, so memory is
     * reordered; the file is not touched.
     */
    method List(filterCategory: string, sortBy: string) returns (shown: seq<Task>)
      modifies this
      ensures file == old(file)
      ensures multiset(shown) == multiset(Filtered(old(tasks), filterCategory))
      ensures SortKeyOf(sortBy).None? ==> shown == Filtered(old(tasks), filterCategory)
      ensures SortKeyOf(sortBy).Some? ==> SortedBy(shown, SortKeyOf(sortBy).value)
      ensures tasks == if filterCategory == "" then shown else old(tasks)
    {
      if |tasks| == 0 {
        return [];
      }
      var filtered := FilterTask(tasks, filterCategory);
      var a := new Task[|filtered|](i requires 0 <= i < |filtered| => filtered[i]);
      assert a[..] == filtered;
      SortTasks(a, sortBy);
      shown := a[..];
      if filterCategory == "" {
        tasks := shown;
      }
    }

    /** exportTaskToCSV: the header line, then one line per task in list order. */
    method Export() returns (content: string)
      ensures content == ExportCSV(tasks)
    {
      content := HEADER + "\n";
      ExportPrefixEmpty(tasks);
      var i := 0;
      while i < |tasks|
        invariant 0 <= i <= |tasks|
        invariant content == Terminated([HEADER] + FormatRows(tasks[..i]))
      {
        ExportPrefixSnoc(tasks, i);
        content := content + FormatRow(tasks[i]) + "\n";
        i := i + 1;
      }
      assert tasks[..i] == tasks;
    }

    /**
     * The loop of importTaskFromCSV over the lines after the header: each
     * line of seven fields is appended, in file order.
     */
    method ImportRows(lines: seq<string>)
      requires |lines| > 0
      modifies this
      ensures tasks == old(tasks) + ParseRowsAsWritten(lines[1..]) && file == old(file)
    {
      var i := 1;
      assert lines[1..1] == [];
      while i < |lines|
        invariant 1 <= i <= |lines|
        invariant tasks == old(tasks) + ParseRowsAsWritten(lines[1..i]) && file == old(file)
      {
        ImportStepAsWritten(lines, i);
        var fields := Split(lines[i], ',');
        if |fields| == 7 {
          tasks := tasks + [RowTaskAsWritten(fields)];
        }
        i := i + 1;
      }
      assert lines[1..i] == lines[1..];
    }

    /**
     * importTaskFromCSV: with no file nothing happens; otherwise every line
     * after the first that has seven fields is appended as a task, its due
     * date read with the "2006-01-01" layout, and the list is saved even when
     * no line was appended.
     */
    method ImportCSV(content: Option<string>)
      modifies this
      ensures content.None? ==> tasks == old(tasks) && file == old(file)
      ensures content.Some? ==> tasks == old(tasks) + ImportedTasksAsWritten(content.value) && file == tasks
    {
      if content.None? {
        return;
      }
      var lines := ScanLines(content.value);
      if |lines| > 0 {
        ImportRows(lines);
      }
      file := tasks;
    }
  }
}
