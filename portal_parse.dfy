/**
 * parse_csv from create_portfolio_portal.py (V1) and
 * create_portfolio_portal_v2.py (V2): one pass over the rows of a Todoist CSV
 * export. A 'section' row opens a section, a 'task' row appends a task with
 * the next id and the current section's name, and a 'note' row is appended
 * to the notes of the most recent task. The two versions differ only in how
 * PRIORITY is read and in how DATE and DEADLINE are stored.
 *
 * A row is the dict csv.DictReader yields: a map from column name to text.
 * int() on a bad INDENT (either version) or PRIORITY (V1) raises ValueError
 * and ends the parse; the result then names that row.
 */
module PortalParse {
  import opened Wrappers
  import opened Text

  type Row = map<string, string>

  datatype Version = V1 | V2

  datatype Section = Section(id: string, name: string, isCollapsed: bool)

  datatype Note = Note(content: string, author: string, date: string)

  /**
   * The fields a task row contributes. date and deadline are the stripped
   * text in V1 and parse_date's result in V2 (None for no date).
   */
  datatype TaskFields = TaskFields(
    content: string,
    description: string,
    priority: int,
    indent: int,
    author: string,
    responsible: string,
    date: Option<string>,
    deadline: Option<string>,
    deadlineLang: string)

  /** A task record: its id, its row's fields, its section's name and its notes. */
  datatype Task = Task(id: nat, fields: TaskFields, section: string, notes: seq<Note>)

  /** What parse_csv returns, plus current_section. */
  datatype Parsed = Parsed(sections: seq<Section>, current: Option<Section>, tasks: seq<Task>)

  /**
   * What one row means to the loop: a section, a task (None when int()
   * raises on it), a note, or nothing.
   */
  datatype RowRead = SectionRead(name: string, isCollapsed: bool) | TaskRead(fields: Option<TaskFields>) | NoteRead(note: Note) | OtherRead

  /** row.get(key, default) */
  function Get(row: Row, key: string, default: string): string {
    if key in row then row[key] else default
  }

  /**
   * The 'priority' of a task row. V1: int() of the column, 1 when the column
   * is missing, an error on empty or non-numeric text. V2: 4 when the
   * stripped column is empty, missing or not an integer.
   */
  function PriorityOf(version: Version, row: Row): (r: Option<int>)
    ensures version == V2 ==> r.Some?
  {
    match version
    case V1 => if "PRIORITY" in row then ParseInt(row["PRIORITY"]) else Some(1)
    case V2 =>
      var text := Strip(Get(row, "PRIORITY", ""));
      if text == "" then Some(4)
      else match ParseInt(text)
        case Some(p) => Some(p)
        case None => Some(4)
  }

  /** int(row.get('INDENT', 1)): 1 when the column is missing, an error on bad text. */
  function IndentOf(row: Row): Option<int> {
    if "INDENT" in row then ParseInt(row["INDENT"]) else Some(1)
  }

  function DateOf(version: Version, parseDate: string -> Option<string>, text: string): Option<string> {
    match version
    case V1 => Some(Strip(text))
    case V2 => parseDate(text)
  }

  /**
   * How the loop reads one row: TYPE is stripped; a section's name and a
   * task's and a note's text fields are stripped; IS_COLLAPSED is compared
   * unstripped against 'True'.
   */
  function ReadRow(version: Version, parseDate: string -> Option<string>, row: Row): RowRead {
    var rowType := Strip(Get(row, "TYPE", ""));
    if rowType == "section" then
      SectionRead(Strip(Get(row, "CONTENT", "")), Get(row, "IS_COLLAPSED", "False") == "True")
    else if rowType == "task" then
      var priority, indent := PriorityOf(version, row), IndentOf(row);
      if priority.None? || indent.None? then TaskRead(None)
      else TaskRead(Some(TaskFields(
        Strip(Get(row, "CONTENT", "")),
        Strip(Get(row, "DESCRIPTION", "")),
        priority.value,
        indent.value,
        Strip(Get(row, "AUTHOR", "")),
        Strip(Get(row, "RESPONSIBLE", "")),
        DateOf(version, parseDate, Get(row, "DATE", "")),
        DateOf(version, parseDate, Get(row, "DEADLINE", "")),
        Strip(Get(row, "DEADLINE_LANG", "")))))
    else if rowType == "note" then
      NoteRead(Note(Strip(Get(row, "CONTENT", "")), Strip(Get(row, "AUTHOR", "")), Strip(Get(row, "DATE", ""))))
    else OtherRead
  }

  /**
   * The row dispatch: the stripped TYPE decides the kind of row; a task row
   * fails exactly when int() fails on its PRIORITY (V1) or INDENT, and
   * otherwise carries the parsed priority and indent.
   */
  lemma ReadRowKinds(version: Version, parseDate: string -> Option<string>, row: Row)
    ensures var r := ReadRow(version, parseDate, row);
      var rowType := Strip(Get(row, "TYPE", ""));
      && (r.SectionRead? <==> rowType == "section")
      && (r.TaskRead? <==> rowType == "task")
      && (r.NoteRead? <==> rowType == "note")
      && (r.SectionRead? ==>
            r.name == Strip(Get(row, "CONTENT", ""))
            && (r.isCollapsed <==> "IS_COLLAPSED" in row && row["IS_COLLAPSED"] == "True"))
      && (r.TaskRead? ==> (r.fields.Some? <==> PriorityOf(version, row).Some? && IndentOf(row).Some?))
      && (r.TaskRead? && r.fields.Some? ==>
            r.fields.value.priority == PriorityOf(version, row).value
            && r.fields.value.indent == IndentOf(row).value
            && r.fields.value.content == Strip(Get(row, "CONTENT", "")))
  {
  }

  /** Every row, read. */
  function ReadAll(version: Version, parseDate: string -> Option<string>, rows: seq<Row>): (items: seq<RowRead>)
    ensures |items| == |rows|
  {
    seq(|rows|, i requires 0 <= i < |rows| => ReadRow(version, parseDate, rows[i]))
  }

  function SectionName(current: Option<Section>): string {
    match current
    case Some(s) => s.name
    case None => "No Section"
  }

  /** One row of parse_csv's loop; idx is the row's position, reported on an error. */
  function Step(st: Parsed, read: RowRead, idx: nat): Result<Parsed, nat> {
    match read
    case SectionRead(name, isCollapsed) =>
      var s := Section("section_" + NatToString(|st.sections|), name, isCollapsed);
      Success(st.(sections := st.sections + [s], current := Some(s)))
    case TaskRead(fields) =>
      if fields.None? then Failure(idx)
      else Success(st.(tasks := st.tasks + [Task(|st.tasks| + 1, fields.value, SectionName(st.current), [])]))
    case NoteRead(note) =>
      if st.tasks == [] then Success(st)
      else
        var last := st.tasks[|st.tasks| - 1];
        Success(st.(tasks := st.tasks[|st.tasks| - 1 := last.(notes := last.notes + [note])]))
    case OtherRead => Success(st)
  }

  /** parse_csv over the first n rows. */
  function Fold(items: seq<RowRead>, n: nat): Result<Parsed, nat>
    requires n <= |items|
  {
    if n == 0 then Success(Parsed([], None, []))
    else match Fold(items, n - 1)
      case Failure(e) => Failure(e)
      case Success(st) => Step(st, items[n - 1], n - 1)
  }

  /**
   * One pass of parse_csv's loop body over the state it keeps; lastTaskId
   * is counted up for every task row, and a failing int() ends the parse.
   */
  method Apply(sections: seq<Section>, current: Option<Section>, tasks: seq<Task>, lastTaskId: nat, read: RowRead, idx: nat)
    returns (result: Result<Parsed, nat>, lastTaskId': nat)
    requires lastTaskId == |tasks|
    ensures result == Step(Parsed(sections, current, tasks), read, idx)
    ensures result.Success? ==> lastTaskId' == |result.value.tasks|
  {
    lastTaskId' := lastTaskId;
    match read {
      case SectionRead(name, isCollapsed) =>
        var section := Section("section_" + NatToString(|sections|), name, isCollapsed);
        result := Success(Parsed(sections + [section], Some(section), tasks));
      case TaskRead(fields) =>
        lastTaskId' := lastTaskId + 1;
        if fields.None? {
          return Failure(idx), lastTaskId';
        }
        result := Success(Parsed(sections, current, tasks + [Task(lastTaskId', fields.value, SectionName(current), [])]));
      case NoteRead(note) =>
        if lastTaskId > 0 {
          var task := tasks[lastTaskId - 1];
          result := Success(Parsed(sections, current, tasks[lastTaskId - 1 := task.(notes := task.notes + [note])]));
        } else {
          result := Success(Parsed(sections, current, tasks));
        }
      case OtherRead =>
        result := Success(Parsed(sections, current, tasks));
    }
  }

  /** parse_csv: the loop over the rows, with last_task_id kept beside the task list. */
  method ParseCsv(version: Version, parseDate: string -> Option<string>, rows: seq<Row>) returns (result: Result<Parsed, nat>)
    ensures result == Fold(ReadAll(version, parseDate, rows), |rows|)
  {
    ghost var items := ReadAll(version, parseDate, rows);
    var sections: seq<Section> := [];
    var current: Option<Section> := None;
    var tasks: seq<Task> := [];
    var lastTaskId := 0;
    var i := 0;
    while i < |rows|
      invariant 0 <= i <= |rows| && lastTaskId == |tasks|
      invariant Fold(items, i) == Success(Parsed(sections, current, tasks))
    {
      var read := ReadRow(version, parseDate, rows[i]);
      assert read == items[i];
      var next;
      next, lastTaskId := Apply(sections, current, tasks, lastTaskId, read, i);
      assert Fold(items, i + 1) == next;
      if next.Failure? {
        FailureSticks(items, i + 1, |rows|);
        return next;
      }
      sections, current, tasks := next.value.sections, next.value.current, next.value.tasks;
      i := i + 1;
    }
    result := Success(Parsed(sections, current, tasks));
  }

  /** Once the parse has failed, later rows change nothing. */
  lemma {:induction false} FailureSticks(items: seq<RowRead>, i: nat, n: nat)
    requires i <= n <= |items| && Fold(items, i).Failure?
    ensures Fold(items, n) == Fold(items, i)
  {
    if i < n {
      FailureSticks(items, i, n - 1);
    }
  }

  /** The number of task rows among the first n rows. */
  function CountTaskRows(items: seq<RowRead>, n: nat): (c: nat)
    requires n <= |items|
    ensures c <= n
  {
    if n == 0 then 0 else CountTaskRows(items, n - 1) + (if items[n - 1].TaskRead? then 1 else 0)
  }

  /** The number of section rows among the first n rows. */
  function CountSectionRows(items: seq<RowRead>, n: nat): (c: nat)
    requires n <= |items|
    ensures c <= n
  {
    if n == 0 then 0 else CountSectionRows(items, n - 1) + (if items[n - 1].SectionRead? then 1 else 0)
  }

  /** The position of the last section row among the first n rows. */
  function LastSectionRow(items: seq<RowRead>, n: nat): (r: Option<nat>)
    requires n <= |items|
    ensures r.Some? ==> r.value < n && items[r.value].SectionRead?
    ensures r.Some? ==> forall j :: r.value < j < n ==> !items[j].SectionRead?
    ensures r.None? ==> forall j :: 0 <= j < n ==> !items[j].SectionRead?
  {
    if n == 0 then None
    else if items[n - 1].SectionRead? then Some(n - 1)
    else LastSectionRow(items, n - 1)
  }

  /** The 'section' a task row at position n gets: the latest section row's name, or 'No Section'. */
  function SectionNameBefore(items: seq<RowRead>, n: nat): string
    requires n <= |items|
  {
    match LastSectionRow(items, n)
    case Some(j) => items[j].name
    case None => "No Section"
  }

  /**
   * The notes of task k (0-based) after the first n rows: the note rows that
   * come after the (k+1)-th task row and before the next one, in order.
   */
  function NotesOfTask(items: seq<RowRead>, n: nat, k: nat): seq<Note>
    requires n <= |items|
  {
    if n == 0 then []
    else
      NotesOfTask(items, n - 1, k)
      + (if items[n - 1].NoteRead? && CountTaskRows(items, n - 1) == k + 1 then [items[n - 1].note] else [])
  }

  /** Row j is a task row on which int() raises. */
  predicate BadTaskRow(items: seq<RowRead>, j: nat)
    requires j < |items|
  {
    items[j].TaskRead? && items[j].fields.None?
  }

  /**
   * The parse fails exactly when some task row has a bad INDENT (or, in V1,
   * PRIORITY), and it names the first such row.
   */
  lemma {:induction false} FoldFailure(items: seq<RowRead>, n: nat)
    requires n <= |items|
    ensures Fold(items, n).Failure? ==>
      var e := Fold(items, n).error;
      e < n && BadTaskRow(items, e) && forall j :: 0 <= j < e ==> !BadTaskRow(items, j)
    ensures Fold(items, n).Success? ==> forall j :: 0 <= j < n ==> !BadTaskRow(items, j)
  {
    if n > 0 {
      FoldFailure(items, n - 1);
    }
  }

  /**
   * What a successful parse has seen: one task per task row with ids 1, 2, …
   * in row order, one section per section row with ids section_0, section_1,
   * …, and current_section is the latest section row.
   */
  lemma FoldCounts(items: seq<RowRead>, n: nat)
    requires n <= |items| && Fold(items, n).Success?
    ensures var st := Fold(items, n).value;
      && |st.tasks| == CountTaskRows(items, n)
      && (forall k :: 0 <= k < |st.tasks| ==> st.tasks[k].id == k + 1)
      && |st.sections| == CountSectionRows(items, n)
      && (forall k :: 0 <= k < |st.sections| ==> st.sections[k].id == "section_" + NatToString(k))
      && SectionName(st.current) == SectionNameBefore(items, n)
  {
    FoldTaskIds(items, n);
    FoldSectionIds(items, n);
    FoldCurrent(items, n);
  }

  /** Task k carries id k + 1, one per task row read. */
  lemma {:induction false} FoldTaskIds(items: seq<RowRead>, n: nat)
    requires n <= |items| && Fold(items, n).Success?
    ensures var st := Fold(items, n).value;
      && |st.tasks| == CountTaskRows(items, n)
      && (forall k :: 0 <= k < |st.tasks| ==> st.tasks[k].id == k + 1)
  {
    if n > 0 {
      FoldTaskIds(items, n - 1);
      var prev := Fold(items, n - 1).value;
      var st := Fold(items, n).value;
      assert Fold(items, n) == Step(prev, items[n - 1], n - 1);
      if items[n - 1].NoteRead? {
        assert forall k :: 0 <= k < |st.tasks| ==> st.tasks[k].id == prev.tasks[k].id;
      }
    }
  }

  /** Section k is named section_k, one per section row read. */
  lemma {:induction false} FoldSectionIds(items: seq<RowRead>, n: nat)
    requires n <= |items| && Fold(items, n).Success?
    ensures var st := Fold(items, n).value;
      && |st.sections| == CountSectionRows(items, n)
      && (forall k :: 0 <= k < |st.sections| ==> st.sections[k].id == "section_" + NatToString(k))
  {
    if n > 0 {
      FoldSectionIds(items, n - 1);
      assert Fold(items, n) == Step(Fold(items, n - 1).value, items[n - 1], n - 1);
    }
  }

  /**
   * The section row at position i becomes section number
   * CountSectionRows(items, i): it is named section_<k> and carries the
   * stripped CONTENT and the IS_COLLAPSED flag read from that row, and later
   * rows leave it alone.
   */
  lemma {:induction false} SectionOfRow(items: seq<RowRead>, n: nat, i: nat)
    requires i < n <= |items| && items[i].SectionRead?
    requires Fold(items, n).Success?
    ensures var st := Fold(items, n).value;
      var k := CountSectionRows(items, i);
      && k < |st.sections|
      && st.sections[k] == Section("section_" + NatToString(k), items[i].name, items[i].isCollapsed)
  {
    assert Fold(items, n) == Step(Fold(items, n - 1).value, items[n - 1], n - 1);
    if n == i + 1 {
      FoldSectionIds(items, i);
    } else {
      SectionOfRow(items, n - 1, i);
    }
  }

  /** current_section is the latest section row, if any. */
  lemma {:induction false} FoldCurrent(items: seq<RowRead>, n: nat)
    requires n <= |items| && Fold(items, n).Success?
    ensures SectionName(Fold(items, n).value.current) == SectionNameBefore(items, n)
  {
    if n > 0 {
      FoldCurrent(items, n - 1);
      assert Fold(items, n) == Step(Fold(items, n - 1).value, items[n - 1], n - 1);
    }
  }

  /** Task rows before position j are no fewer than those before an earlier position. */
  lemma {:induction false} CountTaskRowsMonotone(items: seq<RowRead>, i: nat, j: nat)
    requires i <= j <= |items|
    ensures CountTaskRows(items, i) <= CountTaskRows(items, j)
    ensures i < j && items[i].TaskRead? ==> CountTaskRows(items, i) < CountTaskRows(items, j)
  {
    if i < j {
      CountTaskRowsMonotone(items, i, j - 1);
    }
  }

  /** No note belongs to task k while fewer than k + 1 task rows have been read. */
  lemma {:induction false} NoNotesYet(items: seq<RowRead>, n: nat, k: nat)
    requires n <= |items| && forall j :: 0 <= j < n ==> CountTaskRows(items, j) <= k
    ensures NotesOfTask(items, n, k) == []
  {
    if n > 0 {
      NoNotesYet(items, n - 1, k);
    }
  }

  /**
   * The task row at position i becomes task number CountTaskRows(items, i)
   * (0-based): its fields come from the row, its id is one more than that
   * number, its section is the latest section row's name (or 'No Section'),
   * and its notes are exactly the note rows read while it was the most
   * recent task. Note rows before the first task row belong to no task.
   */
  lemma {:induction false} TaskOfRow(items: seq<RowRead>, n: nat, i: nat)
    requires i < n <= |items| && items[i].TaskRead?
    requires Fold(items, n).Success?
    ensures var st := Fold(items, n).value;
      var k := CountTaskRows(items, i);
      && items[i].fields.Some?
      && k < |st.tasks|
      && st.tasks[k] == Task(k + 1, items[i].fields.value, SectionNameBefore(items, i), NotesOfTask(items, n, k))
  {
    var k := CountTaskRows(items, i);
    FoldFailure(items, n);
    if n == i + 1 {
      FoldCounts(items, i);
      forall j | 0 <= j < n
        ensures CountTaskRows(items, j) <= k
      {
        CountTaskRowsMonotone(items, j, i);
      }
      NoNotesYet(items, n, k);
    } else {
      TaskOfRow(items, n - 1, i);
      FoldCounts(items, n - 1);
      CountTaskRowsMonotone(items, i, n - 1);
    }
  }

  /** V2's priority rule in one line: int() of the column when that succeeds, otherwise 4. */
  lemma PriorityV2(row: Row)
    ensures PriorityOf(V2, row) == Some(match ParseInt(Get(row, "PRIORITY", "")) case Some(p) => p case None => 4)
  {
    StripIdempotent(Get(row, "PRIORITY", ""));
  }

  /** A PRIORITY column holding a printed integer reads back as that integer in both versions. */
  lemma PriorityRoundTrip(version: Version, p: int)
    ensures PriorityOf(version, map["PRIORITY" := IntToString(p)]) == Some(p)
  {
    ParseIntRoundTrip(p);
    var s := IntToString(p);
    assert !IsSpace(s[0]) && !IsSpace(s[|s| - 1]);
    StripOfStripped(s);
  }

  /**
   * Where the versions part: an empty PRIORITY is an error in V1 and 4 in
   * V2; a missing one is 1 in V1 and 4 in V2.
   */
  lemma PriorityDefaults(row: Row)
    ensures "PRIORITY" in row && Strip(row["PRIORITY"]) == "" ==>
      PriorityOf(V1, row) == None && PriorityOf(V2, row) == Some(4)
    ensures "PRIORITY" !in row ==> PriorityOf(V1, row) == Some(1) && PriorityOf(V2, row) == Some(4)
  {
  }
}
