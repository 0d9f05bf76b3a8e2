# A verified model of a command-line to-do list

The program keeps a list of tasks in memory (`todos.Tasks`) and saves the list
to a JSON data file after every command that changes it. A task has an id, a
text, a priority, a due date, a category, a completion flag, subtasks, tags,
attachments, collaborators, and estimated and actual minutes.

The model covers these commands:

- `add`: numbers the new task after the last one.
- `remove`: splices out the first task with an id.
- `markTaskComplete`, `addSubtask`, `addAttachment`, `addCollaborator`: each edits the first task with an id.
- `-add-collaborator=id,name`: reads its argument and hands it to `addCollaborator`.
- `filterTask`: selects the tasks of one category.
- `sortTask`: sorts by priority, due date or category.
- `list`: filters, then sorts.
- `contains` and `searchTasks`: case-insensitive keyword search.
- `generateProductivityReport`: the counting part, and the efficiency row.
- CSV export and import.

Modules:

- `TodoTypes` (types.dfy): a task, a subtask, a date, and the fields a new task is created from.
- `Text` (text.dfy): the string primitives the program calls:
  - ASCII lower-casing;
  - `strings.Contains`;
  - `strings.Split` and `strings.Join` on one character;
  - `strings.SplitN(s, sep, 2)`;
  - `strconv.Itoa` and `strconv.Atoi`.
- `Dates` (dates.dfy): `time.Format` and `time.Parse` for the layouts the program uses, and `Before`.
- `Queries` (queries.dfy): filtering, searching, sorting and the report.
  - Filter and search share one selection function, `Select`.
  - `SortTasks` sorts an `array` in place.
  - Loops are methods, each proved equal to a function.
- `Repository` (repository.dfy): what each mutation does to the list of tasks, as functions on values. It also holds the lemmas about the id policy, "only the first match changes", and order preservation.
- `Csv` (csv.dfy): the export text, the line scanner and the import's row parser, and the round trips between them.
- `TodoStore` (store.dfy): the class `TodoList`.
  - It holds the tasks in memory (`tasks`) and the tasks in the data file (`file`).
  - It has one method per command. Where the source loops over the list (the by-id edits, remove, export, the import's rows), the method loops the same way; `Add`, `List` and `ImportCSV` call functions or other methods, as the source does.
  - Each method's `ensures` ties the new state to the `Repository` or `Csv` function.
  - A command that finds its task saves: `file == tasks`. One that does not leaves `file` alone.

Dates are `(year, month, day)` triples rather than day numbers. This keeps the
two date layouts apart (see Findings). `Before` compares them
chronologically, which is what `time.Time.Before` does for dates at midnight.

## Model

| member | source | states |
|---|---|---|
| TodoTypes.NewTask | main.go:391-398 | a new task carries the given id, text, priority, due date and category; it is incomplete and has no subtasks, tags, attachments or collaborators |
| Text.Lower | main.go:252 | lower-casing keeps the length and maps each character by itself (ASCII letters to lower case) |
| Text.Contains | main.go:263-264 | a text contains nothing longer than itself, and contains each of its prefixes, the empty keyword included |
| Text.Split | main.go:324 | splitting gives one more piece than there are separators, and no piece holds the separator |
| Text.Join | main.go:303 | joining one or more pieces that do not hold the separator puts exactly one separator fewer than pieces into the result |
| Text.SplitJoin | main.go:324 | joining pieces that do not hold the separator and splitting again gives back exactly those pieces |
| Text.JoinEmptySplitsToOneEmpty | main.go:335 | an empty list joined and split again comes back as one empty piece |
| Text.SplitFirstOnly | main.go:149 | `SplitN(s, ",", 2)`: two parts exactly when `s` has the separator; the first has none and the parts rebuild `s`; otherwise `s` alone |
| Text.SplitFirstOnlyAt | main.go:149 | text without the separator, the separator, then anything, is cut at that first separator |
| Text.Itoa | main.go:300 | a formatted integer is non-empty and holds no comma, vertical bar or line end |
| Text.ParseIntOfItoa | main.go:331-332 | `Atoi` reads back every integer `Itoa` writes |
| Text.ParseInt | main.go:331-332 | `Atoi` accepts exactly a non-empty run of digits, optionally after one sign; a negative result comes only from a leading `-` |
| Text.Atoi | main.go:153 | text that parses gives its value; text that does not gives 0, because the error is dropped |
| Dates.BeforeIsStrictOrder | main.go:519 | `Before` is irreflexive and transitive, and total: of two different dates one is before the other |
| Dates.Before | main.go:519 | a date before another differs from it and has no later year |
| Dates.FormatDate | main.go:302 | a formatted date holds no `,` and no line end |
| Dates.ParseDate | main.go:377 | layout "2006-01-02" accepts only real calendar days with a four-digit year |
| Dates.ParseDateAsWritten | main.go:333 | layout "2006-01-01" gives a real date with a four-digit year whose day is always 1 |
| Dates.ParseFormatDate | main.go:302 | every date with a year in 0..9999 is read back unchanged by "2006-01-02" |
| Dates.ParseFormatDateAsWritten | main.go:333 | with "2006-01-01", an exported date comes back as (year, day, 1) when the day is at most 12, and fails otherwise |
| Dates.ImportLayoutLosesMarch15 | main.go:333 | 2025-03-15 is exported and then imported as the zero date; the "2006-01-02" layout gives it back |
| Dates.SignedYearRejected | main.go:333 | a year field with a sign, such as "-001" or "+025", makes both layouts fail |
| Queries.Select | main.go:500-504 | the result is no longer than the input and every element meets the criterion |
| Queries.SelectMeaning | main.go:500-504 | each task meeting the criterion is kept as often as it occurs, no other task is kept, and the input order is kept |
| Queries.Filtered | main.go:493-507 | the result is no longer than the input, and for a category other than "" every task in it has that category |
| Queries.FilterTask | main.go:493-507 | "" returns the input itself; any other category returns exactly that category's tasks, in order |
| Queries.FilteredMeaning | main.go:493-507 | "" keeps every task; otherwise a task is in the result if and only if it is in the input with that category, and the result keeps the input order |
| Queries.ContainsFold | main.go:250-257 | true if and only if some element equals the item up to ASCII case |
| Queries.SearchTasks | main.go:260-268 | the result is exactly the tasks, in order, whose lower-cased text or category contains the lower-cased keyword or with a tag equal to it up to case |
| Queries.SearchIgnoresKeywordCase | main.go:263-265 | two keywords equal up to case find the same tasks |
| Queries.KeywordMatch | main.go:263-265 | the empty keyword matches every task |
| Queries.KeywordMatchLowered | main.go:263-265 | lower-casing the keyword first does not change which tasks match |
| Queries.SearchFindsBuyMilk | main.go:263 | "milk" finds a task whose text is "Buy Milk" |
| Queries.SortKeyOf | main.go:512-525 | a sort key is recognised if and only if it is "priority", "due" or "category" |
| Queries.Less | main.go:514-523 | under each key, a task is never less than itself |
| Queries.StringLess | main.go:523 | a string is never less than itself |
| Queries.LessIsStrictOrder | main.go:511-527 | each key's less function is irreflexive and transitive |
| Queries.StringLessTransitive | main.go:523 | string `<` is transitive |
| Queries.StringLessTotal | main.go:523 | of two different strings one is less than the other |
| Queries.SortedByPriorityMeaning | main.go:513-516 | sorted by "priority" means non-increasing priority |
| Queries.SortedByDueMeaning | main.go:517-520 | sorted by "due" means no later task is due strictly before an earlier one, so due dates never decrease |
| Queries.SortedByCategoryMeaning | main.go:521-524 | sorted by "category" means categories never decrease along the list |
| Queries.MinIndex | main.go:511-527 | returns a position from `from` on holding an element nothing after it is less than |
| Queries.SortTasks | main.go:511-527 | the array is permuted; for "priority", "due" or "category" no element is less than an earlier one; any other key leaves the array unchanged |
| Queries.ReportTotals | main.go:620-627 | the completed count never exceeds the number of tasks |
| Queries.ReportTotalsAppend | main.go:620-627 | the counts of two lists put together are the sums of their counts |
| Queries.NothingCompletedNothingCounted | main.go:620-627 | with no completed task, every count is zero |
| Queries.ProductivityReport | main.go:615-627 | the counting loop computes exactly `ReportTotals` |
| Queries.EfficiencyGuardAdmitsZeroDivisor | main.go:637-638 | one completed task estimated at 30 minutes with 0 actual minutes passes the guard, so the division is by zero |
| Queries.ShowsEfficiencyAsWritten | main.go:637 | the guard as written shows the row only for a positive estimate, and for every report with a positive estimate whose percentage is defined |
| Queries.Efficiency | main.go:637-640 | the percentage exists if and only if the actual total is positive, and equal totals give 100 |
| Repository.FindFirst | main.go:437-438 | the position found holds the id and no earlier task does; none is found if and only if no task has the id |
| Repository.NextId | main.go:384-388 | an empty list gives 1; while ids ascend, the new id is above every existing id |
| Repository.Added | main.go:384-398 | the list grows by one at the end and the earlier tasks are kept; the new task has id `NextId` and is incomplete |
| Repository.AddedMeaning | main.go:384-398 | add grows the list by one at the end and leaves earlier tasks as they were; the new task is incomplete and its id is 1 for an empty list, else the last id plus one |
| Repository.AddAllKeepsNumbering | main.go:384-388 | adds to a list numbered 1..n keep it numbered 1..n+k |
| Repository.AddsFromEmptyNumberFromOne | main.go:384-388 | k adds to an empty list give ids 1..k |
| Repository.AddedFreshWhenAscending | main.go:384-388 | while ids ascend, the new id is fresh, they keep ascending, and they are unique |
| Repository.NextIdCanCollide | main.go:387 | ids [3, 2] give the new task id 3, a duplicate, because the last id is used and not the largest |
| Repository.RemoveFirst | main.go:436-451 | the list is one task shorter exactly when the id is found and otherwise keeps its length; no task is invented |
| Repository.RemoveFirstMeaning | main.go:436-451 | with no match the list is unchanged; otherwise it loses exactly one copy of the first matching task, and every task before that position keeps its place while every task after it moves up by one |
| Repository.RemoveClearsUniqueId | main.go:436-451 | with unique ids, no task keeps the id, every other task stays, and ids stay unique |
| Repository.RemoveKeepsAscending | main.go:440 | remove keeps ascending ids ascending |
| Repository.NextSubtaskId | main.go:414-417 | a task without subtasks gives 1; while subtask ids ascend, the new id is above every existing one |
| Repository.Apply | main.go:589 | an edit never changes a task's id |
| Repository.ApplyMeaning | main.go:410-423 | each edit changes one field: complete becomes true, or one attachment, collaborator or subtask is appended; the subtask is incomplete and numbered after the last one, or 1 |
| Repository.AppendSubtaskKeepsAscending | main.go:414-417 | while subtask ids ascend, the new one is fresh and they keep ascending |
| Repository.UpdateFirst | main.go:587-589 | a by-id edit keeps every id in place |
| Repository.UpdateFirstMeaning | main.go:587-597 | only the first task with the id changes, by the edit; every other task is unchanged; an absent id changes nothing |
| Repository.UpdateKeepsAscending | main.go:587-589 | by-id edits keep ascending ids ascending |
| Repository.MarkCompleteCountsOnce | main.go:589 | marking a task complete raises the completed count by one, or leaves it as it was if that task was complete or absent |
| Repository.AddRemoveScenario | main.go:368-452 | adding to an empty list and removing id 1 gives the empty list |
| Csv.ParseFormatBool | main.go:334 | `ParseBool` reads back what `%t` writes |
| Csv.RowFields | main.go:300-303 | seven fields; text is field 1 and category field 4; the id, priority, date and flag the program formats never hold a comma |
| Csv.FormatBool | main.go:300 | `%t` writes no comma and no line end |
| Csv.ParseBool | main.go:334 | an accepted flag is non-empty, and is true exactly when it starts with `1`, `t` or `T` |
| Csv.RowTask | main.go:331-345 | a task built from seven fields takes its text from field 1 and its category from field 4, has at least one tag, and has no subtasks, attachments, collaborators, times, notes or cron |
| Csv.RowTaskAsWritten | main.go:330-345 | what the import builds as written differs from the corrected one only in its due date |
| Csv.ParseRow | main.go:324-328 | a line gives a task if and only if it has exactly six commas, that is seven fields |
| Csv.ParseRowAsWritten | main.go:324-328 | the import as written accepts exactly the same lines |
| Csv.ParseRows | main.go:322-348 | corrected half: the import loop adds at most one task per line |
| Csv.RowTaskOfFields | main.go:300-345 | reading back the fields written for a task gives its CSV fields, with the due date the layout reads from the formatted date |
| Csv.SixFieldsAsWritten | main.go:324-345 | as written, with no comma in text, category or tags, no vertical bar in a tag and at least one tag, a row is read back as its task's id, text, priority, category, flag and tags, and the due date is what layout "2006-01-01" reads |
| Csv.FormatRow | main.go:300-303 | when text, category and tags hold no comma, no tag holds a vertical bar and there is at least one tag, the row splits at commas into exactly its seven fields; the row of a safe task holds no line end |
| Csv.RowRoundTrip | main.go:324-345 | corrected half (layout "2006-01-02"): an exported row is read back with the same id, text, priority, due date, category, flag and tags, and nothing else |
| Csv.RowRoundTripAsWritten | main.go:333 | with the import's own layout, the row comes back the same except the due date, which becomes (year, day, 1) or the zero date |
| Csv.DueAsWritten | main.go:333 | an as-written due date is always the first of a month, and a real date when the exported one was |
| Csv.DueAsWrittenOfFormatDate | main.go:302-333 | `DueAsWritten` is exactly what layout "2006-01-01" makes of the date the export wrote, with a failed parse giving the zero date |
| Csv.EmptyTagsComeBackAsOneEmptyTag | main.go:335 | corrected half (layout "2006-01-02"): a safe task without tags comes back with the single tag "" |
| Csv.EmptyTagsComeBackAsOneEmptyTagAsWritten | main.go:324-345 | as written: a task without tags whose text and category hold no comma comes back with the single tag "", its other CSV fields, and the due date layout "2006-01-01" reads |
| Csv.ExportCSV | main.go:296-304 | the export starts with the header line |
| Csv.ScanLines | main.go:319-323 | empty content gives no lines, and no line holds a line feed |
| Csv.SplitTerminated | main.go:319-323 | lines without line ends, each followed by `\n`, split at `\n` into those lines and one final empty piece |
| Csv.ScanTerminated | main.go:319-323 | lines without line ends, each followed by one, are scanned back as they were |
| Csv.ImportedTasks | main.go:319-348 | corrected half: no more tasks than there are lines after the first |
| Csv.ImportedTasksAsWritten | main.go:319-348 | what the import appends: no more tasks than there are lines after the first |
| Csv.ParseRowsAsWritten | main.go:322-348 | the import loop adds at most one task per line |
| Csv.ParseRowsOfFormatRows | main.go:322-348 | corrected half: the rows of safe tasks parse into those tasks' CSV fields, in order |
| Csv.ParseRowsAsWrittenOfFormatRows | main.go:322-348 | as written: the rows of safe tasks parse into those tasks in order, with due dates changed as `DueAsWritten` says |
| Csv.ImportAfterFirstLine | main.go:320-322 | the import, as written and corrected, skips the first line, whatever it says, and parses every line after it |
| Csv.HeaderSingleLine | main.go:296 | the header is one line |
| Csv.ImportOfRows | main.go:310-348 | a one-line header, then the rows of safe tasks: the import as written gives those tasks in order, each with its due date changed as `DueAsWritten` says; the corrected import gives their CSV fields back unchanged |
| Csv.ExportImportRoundTrip | main.go:280-353 | corrected half (layout "2006-01-02"): importing the export gives back every safe task's CSV fields, in order |
| Csv.ExportImportAsWritten | main.go:280-353 | as written: importing the export gives back every safe task's CSV fields, in order, except that each due date (y, m, d) becomes (y, d, 1) when d is at most 12 and the zero date otherwise |
| TodoStore.ParseCollaboratorArg | main.go:149-153 | the argument is accepted if and only if it holds a comma; the id is `Atoi` of the text before the first comma, so 0 when that text is not a number, and the name is everything after it |
| TodoStore.CollaboratorArgRoundTrip | main.go:149-154 | "id,name" is read as that id and name, even when the name holds commas |
| TodoStore.CollaboratorArgBadIdIsZero | main.go:153 | an id field that is not a number is read as id 0 |
| TodoStore.TodoList.constructor | main.go:215-231 | after loading, memory and file hold the same tasks |
| TodoStore.TodoList.Add | main.go:368-404 | the list becomes `Added(old list, draft)` and is saved |
| TodoStore.TodoList.Remove | main.go:436-452 | reports whether the id exists; the list becomes `RemoveFirst`; it is saved only when found |
| TodoStore.TodoList.Update | main.go:587-597 | reports whether the id exists; the list becomes `UpdateFirst` with the edit; it is saved only when found |
| TodoStore.TodoList.MarkTaskComplete | main.go:586-598 | as Update, with the edit that sets the flag |
| TodoStore.TodoList.AddSubtask | main.go:410-433 | as Update, with the edit that appends a numbered subtask |
| TodoStore.TodoList.AddAttachment | main.go:601-612 | as Update, with the edit that appends the file name |
| TodoStore.TodoList.AddCollaborator | main.go:234-247 | as Update, with the edit that appends the collaborator |
| TodoStore.TodoList.AddCollaboratorFlag | main.go:148-156 | without a comma nothing changes; otherwise the first task with the parsed id gains the parsed name |
| TodoStore.TodoList.List | main.go:530-537 | shows a permutation of the filtered tasks, sorted by a known key or in list order otherwise; for "" the in-memory list takes the sorted order and the file is untouched |
| TodoStore.TodoList.Export | main.go:280-307 | writes exactly `ExportCSV` of the list |
| TodoStore.TodoList.ImportRows | main.go:322-348 | the loop over the lines after the first appends exactly `ParseRowsAsWritten` of them and leaves the file alone |
| TodoStore.TodoList.ImportCSV | main.go:310-353 | an unreadable file changes nothing; otherwise the tasks `ImportedTasksAsWritten` reads with the source's own layout "2006-01-01" are appended, and the list is saved even when no row parsed |

## Left out

- Loading and saving the JSON data file (`loadTodo`, `save`) are not modelled as I/O. The data file is the field `file`, and a save is assumed to succeed; the save's own error is not modelled.
- Reading the file to import is a parameter: `None` for a file that cannot be opened, `Some(text)` otherwise.
- Export's file creation and error path are left out. `Export` returns the text it would write.
- The password commands (`setPassword`, `authenticate`) are left out: bcrypt hashing and stdin.
- The cron notifier (`setupRecurringTasks`) is left out: a third-party scheduler running callbacks concurrently.
- The viper `init`, flag parsing and dispatch in `main`, and `interactiveMode` are left out as plumbing. Only the `-add-collaborator` argument check is modelled.
- `add` reads priority, due date and category from stdin. The model takes them already parsed, as a `Draft`.
- `displayTasks` and the report's table are output only. The overdue mark depends on `time.Now()`.
- `CreatedAt`, `CompletedAt`, `RecurringCron` and `Notes` are never set by the modelled commands. `CreatedAt` and `CompletedAt` are not in `Task`.
- Queries.Efficiency: the float64 arithmetic is modelled as exact `real` division. Rounding and the "%.2f" formatting are not modelled.
- Text.Lower: lower-cases ASCII letters only, where `strings.ToLower` also maps other Unicode letters.
- Text.ParseInt: `Atoi`'s range error for numbers outside 64 bits and `Priority`'s cast are not modelled.
- Repository.NextId: ids are unbounded integers. Go's `int` is 64 bits, so after an id of the largest `int` the next id wraps to the smallest, and "above every existing id" fails there.
- Repository.NextSubtaskId: the same 64-bit wrap-around of the last subtask id plus one is not modelled.
- Queries.ReportTotals: the minute sums are unbounded integers; their 64-bit overflow is not modelled.
- Dates.ParseDate: `time.Parse` is modelled for the two layouts only, on any text: four digits, `-`, two digits, `-`, two digits and nothing else, with the month and day ranges checked. The parsers are applied to the fourth field of every imported line. The parse error's message and the time of day and location of a `time.Time` are not modelled.
- Dates.PadInt: `time.Format` writes years outside 0..9999 differently. The round trip is only claimed for years 0..9999 (`Formattable`).
- Csv.ScanLines: `bufio.Scanner`'s 64 KiB line limit is not modelled.
- Queries.SortTasks: `sort.Slice`'s algorithm is not specified, so the model sorts by selection sort. The contract promises only what `sort.Slice` does: a permutation, ordered by the less function. No stability is promised, and equal elements may end up in either order.
- Csv.EmptyTagsComeBackAsOneEmptyTag: states the corrected import; `Csv.EmptyTagsComeBackAsOneEmptyTagAsWritten` states the same rule for the source's import.
- Csv.RowRoundTrip: holds for the corrected date layout "2006-01-02" only; `Csv.RowRoundTripAsWritten` states what the source's layout gives back for one row.
- Csv.ExportImportRoundTrip: holds for the corrected date layout "2006-01-02" only (see Findings). `TodoStore.TodoList.ImportCSV` uses the source's own layout "2006-01-01", and `Csv.ExportImportAsWritten` states what comes back with it: due dates do not round-trip.

## Findings

| source | as written | input that shows it | evidently intended | confidence | as-written member | corrected member |
|---|---|---|---|---|---|---|
| main.go:333 | the import parses due dates with layout "2006-01-01", which reads the month twice and takes the day as 1; the parse error is dropped, so the date becomes the zero time | a task due 2025-03-15 is exported as "2025-03-15"; the parse fails and it is imported due 0001-01-01; a task due 2025-03-05 comes back due 2025-05-01 | the export's layout "2006-01-02", so that due dates round-trip | high (not executed) | Dates.ImportLayoutLosesMarch15, Csv.ExportImportAsWritten | Dates.ParseFormatDate, Csv.ExportImportRoundTrip |
| main.go:637 | the efficiency row is guarded by `totalEstimatedTime > 0`, but the divisor is `totalActualTime` | one completed task with 30 estimated and 0 actual minutes passes the guard, so the row shows the result of dividing by zero (+Inf%) | guard on the divisor, `totalActualTime > 0` | high (not executed) | Queries.EfficiencyGuardAdmitsZeroDivisor | Queries.Efficiency |
