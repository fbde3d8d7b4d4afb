/** The data export page: the choice between the task and the user export,
    and the CSV text each builds, one line per stored document. */
module Export {
  import opened Strings

  /** Which export a choice of the drop-down starts. */
  datatype ExportKind = TasksExport | UsersExport | NoExport

  /** `exportData`: the choice is compared with `tasks` and `users` in
      lower case; any other choice starts nothing. */
  function ExportKindOf(choice: string): (r: ExportKind)
    ensures r == TasksExport <==> ToLower(choice) == "tasks"
    ensures r == UsersExport <==> ToLower(choice) == "users"
    ensures r == NoExport <==> ToLower(choice) != "tasks" && ToLower(choice) != "users"
  {
    if ToLower(choice) == "tasks" then TasksExport
    else if ToLower(choice) == "users" then UsersExport
    else NoExport
  }

  /** Whatever the case of its letters, the word `Tasks` picks the task
      export. */
  lemma TasksInAnyCase(choice: string)
    requires |choice| == 5
    requires LowerChar(choice[0]) == 't' && LowerChar(choice[1]) == 'a' && LowerChar(choice[2]) == 's'
    requires LowerChar(choice[3]) == 'k' && LowerChar(choice[4]) == 's'
    ensures ExportKindOf(choice) == TasksExport
  {
    assert ToLower(choice) == "tasks";
  }

  /** The start of the download link: a CSV data URI. */
  const DataPrefix: string := "data:text/csv;charset=utf-8,"

  const TaskHeaders: seq<string> := [
    "ID", "Title", "Description", "Category", "Assigned To (ID)", "Assigned To (Name)",
    "Due Date", "Completed", "Location", "Priority", "Required Skills", "Slots",
    "WIW Shift IDs", "Apprentice Task", "Hours"]

  const UserHeaders: seq<string> := ["ID", "Name", "Email", "Role", "Skills", "Assigned Task IDs"]

  /** A stored task as the export reads it. A text field holds the text
      the template prints for the stored value, and "" for a missing or
      falsy value (`data.x || ''`); `dueIso` is the ISO text of the due
      date, "" when there is none. A missing list is the empty list. */
  datatype TaskDoc = TaskDoc(
    id: string,
    title: string,
    description: string,
    category: string,
    assignedTo: seq<string>,
    assignedToNames: seq<string>,
    dueIso: string,
    completed: bool,
    location: string,
    priority: string,
    requiredSkills: seq<string>,
    slots: string,
    wiwShiftIds: seq<string>,
    apprenticeTask: bool,
    hours: string)

  /** A stored user as the export reads it, on the same terms. */
  datatype UserDoc = UserDoc(
    id: string,
    name: string,
    email: string,
    role: string,
    skills: seq<string>,
    assignedTaskIds: seq<string>)

  /** `"${text}"`: the text between double quotes, as it is. */
  function Quoted(s: string): (r: string)
    ensures |r| == |s| + 2 && r[0] == '"' && r[|r| - 1] == '"' && r[1..|r| - 1] == s
  {
    "\"" + s + "\""
  }

  /** A list joined with semicolons, between double quotes. */
  function QuotedList(xs: seq<string>): string
  {
    Quoted(Join(xs, ";"))
  }

  function YesNo(b: bool): (r: string)
    ensures r == "Yes" <==> b
    ensures r == "No" <==> !b
  {
    if b then "Yes" else "No"
  }

  /** The fields of a task's line, one under each header. */
  function TaskFields(d: TaskDoc): (r: seq<string>)
    ensures |r| == |TaskHeaders|
    ensures r[0] == d.id
    ensures r[7] == "Yes" <==> d.completed
    ensures r[13] == "Yes" <==> d.apprenticeTask
  {
    [d.id, Quoted(d.title), Quoted(d.description), d.category,
     QuotedList(d.assignedTo), QuotedList(d.assignedToNames), d.dueIso, YesNo(d.completed),
     Quoted(d.location), d.priority, QuotedList(d.requiredSkills), d.slots,
     QuotedList(d.wiwShiftIds), YesNo(d.apprenticeTask), d.hours]
  }

  /** The fields of a user's line, one under each header. */
  function UserFields(d: UserDoc): (r: seq<string>)
    ensures |r| == |UserHeaders|
    ensures r[0] == d.id
  {
    [d.id, Quoted(d.name), Quoted(d.email), d.role, QuotedList(d.skills), QuotedList(d.assignedTaskIds)]
  }

  /** One CSV line: the fields joined with commas, then a line break. */
  function Line(fields: seq<string>): string
  {
    Join(fields, ",") + "\n"
  }

  /** The lines of the rows, in order. */
  function Body(rows: seq<seq<string>>): string
  {
    if rows == [] then "" else Body(rows[..|rows| - 1]) + Line(rows[|rows| - 1])
  }

  function TaskRows(docs: seq<TaskDoc>): (r: seq<seq<string>>)
    ensures |r| == |docs| && forall k :: 0 <= k < |docs| ==> r[k] == TaskFields(docs[k])
  {
    seq(|docs|, k requires 0 <= k < |docs| => TaskFields(docs[k]))
  }

  function UserRows(docs: seq<UserDoc>): (r: seq<seq<string>>)
    ensures |r| == |docs| && forall k :: 0 <= k < |docs| ==> r[k] == UserFields(docs[k])
  {
    seq(|docs|, k requires 0 <= k < |docs| => UserFields(docs[k]))
  }

  /** A CSV download: the data-URI prefix, the header line, and one line
      per row, in order. */
  function Csv(headers: seq<string>, rows: seq<seq<string>>): string
  {
    DataPrefix + Body([headers] + rows)
  }

  /** The task CSV, one line per task document in snapshot order. */
  function TasksCsv(docs: seq<TaskDoc>): string
  {
    Csv(TaskHeaders, TaskRows(docs))
  }

  /** The user CSV, one line per user document in snapshot order. */
  function UsersCsv(docs: seq<UserDoc>): string
  {
    Csv(UserHeaders, UserRows(docs))
  }

  /** Before any row, the CSV is the prefix and the header line. */
  lemma CsvStart(headers: seq<string>)
    ensures Csv(headers, []) == DataPrefix + Join(headers, ",") + "\n"
  {
    assert [headers] + [] == [headers];
    assert [headers][..0] == [];
    assert Body([headers]) == Join(headers, ",") + "\n";
  }

  /** Each further row adds its line at the end. */
  lemma CsvSnoc(headers: seq<string>, rows: seq<seq<string>>, row: seq<string>)
    ensures Csv(headers, rows + [row]) == Csv(headers, rows) + Join(row, ",") + "\n"
  {
    var all := [headers] + (rows + [row]);
    assert all[..|all| - 1] == [headers] + rows;
    assert all[|all| - 1] == row;
  }

  lemma TaskRowsSnoc(docs: seq<TaskDoc>, i: nat)
    requires i < |docs|
    ensures TaskRows(docs[..i + 1]) == TaskRows(docs[..i]) + [TaskFields(docs[i])]
  {
    var a, b := TaskRows(docs[..i + 1]), TaskRows(docs[..i]);
    forall k | 0 <= k < i ensures a[k] == b[k] {
      assert docs[..i + 1][k] == docs[..i][k];
    }
    assert a[i] == TaskFields(docs[i]) by {
      assert docs[..i + 1][i] == docs[i];
    }
    RowsSnoc(a, b, TaskFields(docs[i]));
  }

  lemma UserRowsSnoc(docs: seq<UserDoc>, i: nat)
    requires i < |docs|
    ensures UserRows(docs[..i + 1]) == UserRows(docs[..i]) + [UserFields(docs[i])]
  {
    var a, b := UserRows(docs[..i + 1]), UserRows(docs[..i]);
    forall k | 0 <= k < i ensures a[k] == b[k] {
      assert docs[..i + 1][k] == docs[..i][k];
    }
    assert a[i] == UserFields(docs[i]) by {
      assert docs[..i + 1][i] == docs[i];
    }
    RowsSnoc(a, b, UserFields(docs[i]));
  }

  /** A list of rows that agrees with a shorter one on all of its places
      and has `row` at the end is the shorter one with `row` appended. */
  lemma RowsSnoc(longer: seq<seq<string>>, shorter: seq<seq<string>>, row: seq<string>)
    requires |longer| == |shorter| + 1 && longer[|shorter|] == row
    requires forall k :: 0 <= k < |shorter| ==> longer[k] == shorter[k]
    ensures longer == shorter + [row]
  {
  }

  /** `exportTasks`: the CSV starts with the prefix and the header line,
      and each document of the snapshot adds its line. */
  method ExportTasks(docs: seq<TaskDoc>) returns (csv: string)
    ensures csv == TasksCsv(docs)
  {
    csv := DataPrefix + Join(TaskHeaders, ",") + "\n";
    CsvStart(TaskHeaders);
    var i := 0;
    while i < |docs|
      invariant 0 <= i <= |docs|
      invariant csv == Csv(TaskHeaders, TaskRows(docs[..i]))
    {
      var row := TaskFields(docs[i]);
      TaskRowsSnoc(docs, i);
      CsvSnoc(TaskHeaders, TaskRows(docs[..i]), row);
      csv := csv + Join(row, ",") + "\n";
      i := i + 1;
    }
    assert docs[..i] == docs;
  }

  /** `exportUsers`, on the same pattern. */
  method ExportUsers(docs: seq<UserDoc>) returns (csv: string)
    ensures csv == UsersCsv(docs)
  {
    csv := DataPrefix + Join(UserHeaders, ",") + "\n";
    CsvStart(UserHeaders);
    var i := 0;
    while i < |docs|
      invariant 0 <= i <= |docs|
      invariant csv == Csv(UserHeaders, UserRows(docs[..i]))
    {
      var row := UserFields(docs[i]);
      UserRowsSnoc(docs, i);
      CsvSnoc(UserHeaders, UserRows(docs[..i]), row);
      csv := csv + Join(row, ",") + "\n";
      i := i + 1;
    }
    assert docs[..i] == docs;
  }

  /** No field of any row holds the character `c`. */
  predicate Avoids(rows: seq<seq<string>>, c: char)
  {
    forall k, f :: 0 <= k < |rows| && 0 <= f < |rows[k]| ==> c !in rows[k][f]
  }

  /** The rows, each joined with commas. */
  function Joined(rows: seq<seq<string>>): (r: seq<string>)
    ensures |r| == |rows| && forall k :: 0 <= k < |rows| ==> r[k] == Join(rows[k], ",")
  {
    seq(|rows|, k requires 0 <= k < |rows| => Join(rows[k], ","))
  }

  /** Split at line breaks, the lines of rows without line breaks are the
      joined rows, one each, followed by the lines of what comes after. */
  lemma {:induction false} SplitBody(rows: seq<seq<string>>, rest: string)
    requires Avoids(rows, '\n')
    ensures Split(Body(rows) + rest, '\n') == Joined(rows) + Split(rest, '\n')
  {
    if rows != [] {
      var front, last := rows[..|rows| - 1], rows[|rows| - 1];
      AvoidsParts(rows);
      SplitLine(last, rest);
      SplitBody(front, Line(last) + rest);
      BodySnoc(rows, rest);
      JoinedSnoc(rows);
    } else {
      assert Body(rows) + rest == rest;
      assert Joined(rows) == [];
    }
  }

  lemma BodySnoc(rows: seq<seq<string>>, rest: string)
    requires rows != []
    ensures Body(rows) + rest == Body(rows[..|rows| - 1]) + (Line(rows[|rows| - 1]) + rest)
  {
  }

  lemma JoinedSnoc(rows: seq<seq<string>>)
    requires rows != []
    ensures Joined(rows) == Joined(rows[..|rows| - 1]) + [Join(rows[|rows| - 1], ",")]
  {
  }

  /** The rows before the last one, and the last one, avoid what all the
      rows avoid. */
  lemma AvoidsParts(rows: seq<seq<string>>)
    requires rows != [] && Avoids(rows, '\n')
    ensures Avoids(rows[..|rows| - 1], '\n')
    ensures Avoids([rows[|rows| - 1]], '\n')
  {
    var front := rows[..|rows| - 1];
    forall k, f | 0 <= k < |front| && 0 <= f < |front[k]| ensures '\n' !in front[k][f] {
      assert front[k] == rows[k];
    }
  }

  /** A line without inner line breaks is one line of the split. */
  lemma SplitLine(fields: seq<string>, rest: string)
    requires Avoids([fields], '\n')
    ensures Split(Line(fields) + rest, '\n') == [Join(fields, ",")] + Split(rest, '\n')
  {
    var line := Join(fields, ",");
    forall f | 0 <= f < |fields| ensures '\n' !in fields[f] {
      assert [fields][0] == fields;
    }
    JoinAvoids(fields, ",", '\n');
    assert Line(fields) + rest == line + ['\n'] + rest;
    SplitPiece(line, rest, '\n');
  }

  /** Read back line by line, a CSV after its prefix is the header line,
      then exactly one line per row in order, then the empty text after
      the last line break. */
  lemma CsvLines(headers: seq<string>, rows: seq<seq<string>>)
    requires Avoids([headers] + rows, '\n')
    ensures Csv(headers, rows)[|DataPrefix|..] == Body([headers] + rows)
    ensures Split(Csv(headers, rows)[|DataPrefix|..], '\n') == [Join(headers, ",")] + Joined(rows) + [""]
  {
    var all := [headers] + rows;
    SplitBody(all, "");
    assert Body(all) + "" == Body(all);
    assert Joined(all) == [Join(headers, ",")] + Joined(rows);
  }

  /** Where no field holds a comma, a line splits back into its fields. */
  lemma LineFields(fields: seq<string>)
    requires |fields| >= 1 && Avoids([fields], ',')
    ensures Split(Join(fields, ","), ',') == fields
  {
    forall f | 0 <= f < |fields| ensures ',' !in fields[f] {
      assert [fields][0] == fields;
    }
    SplitJoinBack(fields, ',');
  }

  /** No task header holds a line break or a comma. */
  lemma TaskHeadersPlain()
    ensures Avoids([TaskHeaders], '\n') && Avoids([TaskHeaders], ',')
  {
    TaskHeadersAvoid('\n');
    TaskHeadersAvoid(',');
  }

  lemma TaskHeadersAvoid(c: char)
    requires c == '\n' || c == ','
    ensures forall f :: 0 <= f < |TaskHeaders| ==> c !in TaskHeaders[f]
  {
  }

  /** No user header holds a line break or a comma. */
  lemma UserHeadersPlain()
    ensures Avoids([UserHeaders], '\n') && Avoids([UserHeaders], ',')
  {
  }

  /** Read back, the task CSV is its header line and then exactly one
      line per task document, in snapshot order, each line of fifteen
      fields where no field holds a comma. */
  lemma TasksCsvLines(docs: seq<TaskDoc>)
    requires Avoids(TaskRows(docs), '\n')
    ensures Split(TasksCsv(docs)[|DataPrefix|..], '\n') ==
              [Join(TaskHeaders, ",")] + Joined(TaskRows(docs)) + [""]
    ensures forall k :: 0 <= k < |docs| && Avoids([TaskFields(docs[k])], ',') ==>
              |Split(Join(TaskFields(docs[k]), ","), ',')| == |TaskHeaders|
  {
    TaskHeadersPlain();
    AvoidsCons(TaskHeaders, TaskRows(docs), '\n');
    CsvLines(TaskHeaders, TaskRows(docs));
    forall k | 0 <= k < |docs| && Avoids([TaskFields(docs[k])], ',')
      ensures |Split(Join(TaskFields(docs[k]), ","), ',')| == |TaskHeaders|
    {
      LineFields(TaskFields(docs[k]));
    }
  }

  /** The user CSV read back the same way, six fields per line. */
  lemma UsersCsvLines(docs: seq<UserDoc>)
    requires Avoids(UserRows(docs), '\n')
    ensures Split(UsersCsv(docs)[|DataPrefix|..], '\n') ==
              [Join(UserHeaders, ",")] + Joined(UserRows(docs)) + [""]
    ensures forall k :: 0 <= k < |docs| && Avoids([UserFields(docs[k])], ',') ==>
              |Split(Join(UserFields(docs[k]), ","), ',')| == |UserHeaders|
  {
    UserHeadersPlain();
    AvoidsCons(UserHeaders, UserRows(docs), '\n');
    CsvLines(UserHeaders, UserRows(docs));
    forall k | 0 <= k < |docs| && Avoids([UserFields(docs[k])], ',')
      ensures |Split(Join(UserFields(docs[k]), ","), ',')| == |UserHeaders|
    {
      LineFields(UserFields(docs[k]));
    }
  }

  lemma AvoidsCons(headers: seq<string>, rows: seq<seq<string>>, c: char)
    requires Avoids([headers], c) && Avoids(rows, c)
    ensures Avoids([headers] + rows, c)
  {
    var all := [headers] + rows;
    forall k, f | 0 <= k < |all| && 0 <= f < |all[k]| ensures c !in all[k][f] {
      if k == 0 {
        assert all[k] == [headers][0];
      } else {
        assert all[k] == rows[k - 1];
      }
    }
  }

  /** The header lines split into their header names. */
  lemma HeaderColumns()
    ensures Split(Join(TaskHeaders, ","), ',') == TaskHeaders
    ensures Split(Join(UserHeaders, ","), ',') == UserHeaders
  {
    TaskHeadersPlain();
    UserHeadersPlain();
    LineFields(TaskHeaders);
    LineFields(UserHeaders);
  }
}
