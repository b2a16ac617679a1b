/**
 * verify_priorities.py: reads the task rows of the Todoist CSV export,
 * parses each task's priority with a fallback of 1, forces priority 4 on
 * tasks whose content mentions @PROJECT, and writes a report that lists the
 * tasks by final priority, 4 down to 1.
 */
module Priorities {
  import opened Wrappers
  import opened Text
  import opened PortalParse

  /** One entry of the tasks list. */
  datatype Entry = Entry(content: string, csvPriority: int, finalPriority: int, overridden: bool)

  /** csv_priority: 1 for an empty or non-integer PRIORITY, otherwise its integer value. */
  function CsvPriority(raw: string): (p: int)
    ensures Strip(raw) == "" ==> p == 1
    ensures ParseInt(raw).Some? ==> p == ParseInt(raw).value
    ensures ParseInt(raw).None? ==> p == 1
  {
    var s := Strip(raw);
    if s == "" then 1
    else match ParseSigned(s)
      case Some(v) => v
      case None => 1
  }

  /** The content mentions @PROJECT, in any letter case. */
  predicate MentionsProject(content: string) {
    Contains(Upper(content), "@PROJECT")
  }

  /** The entry made for a task row. */
  function EntryOf(row: Row): Entry {
    var content := Strip(Get(row, "CONTENT", ""));
    var csv := CsvPriority(Get(row, "PRIORITY", ""));
    var final := if MentionsProject(content) then 4 else csv;
    Entry(Take(content, 50), csv, final, final != csv)
  }

  /** Only rows whose TYPE is exactly 'task' are read. */
  predicate IsTaskRow(row: Row) {
    "TYPE" in row && row["TYPE"] == "task"
  }

  /** The entries of the task rows, in row order. */
  function Entries(rows: seq<Row>): (tasks: seq<Entry>)
    ensures |tasks| <= |rows|
  {
    if rows == [] then []
    else Entries(rows[..|rows| - 1]) + (if IsTaskRow(rows[|rows| - 1]) then [EntryOf(rows[|rows| - 1])] else [])
  }

  /** The loop over the CSV rows, appending one entry per task row. */
  method ReadPriorities(rows: seq<Row>) returns (tasks: seq<Entry>)
    ensures tasks == Entries(rows)
  {
    tasks := [];
    var i := 0;
    while i < |rows|
      invariant 0 <= i <= |rows|
      invariant tasks == Entries(rows[..i])
    {
      assert rows[..i + 1][..i] == rows[..i];
      var row := rows[i];
      if "TYPE" in row && row["TYPE"] == "task" {
        var content := Strip(Get(row, "CONTENT", ""));
        var priorityStr := Strip(Get(row, "PRIORITY", ""));
        var csvPriority: int;
        if priorityStr == "" {
          csvPriority := 1;
        } else {
          var parsed := ParseSigned(priorityStr);
          if parsed.Some? {
            csvPriority := parsed.value;
          } else {
            csvPriority := 1;
          }
        }
        var finalPriority := if Contains(Upper(content), "@PROJECT") then 4 else csvPriority;
        tasks := tasks + [Entry(Take(content, 50), csvPriority, finalPriority, finalPriority != csvPriority)];
      }
      i := i + 1;
    }
    assert rows[..|rows|] == rows;
  }

  /**
   * An entry is overridden exactly when the content mentions @PROJECT and
   * the CSV priority was not already 4; an overridden entry has final
   * priority 4, and any other keeps its CSV priority. The stored content is
   * the first at most 50 characters of the stripped content.
   */
  lemma EntrySpec(row: Row)
    ensures var e := EntryOf(row);
      var content := Strip(Get(row, "CONTENT", ""));
      && (e.overridden <==> MentionsProject(content) && e.csvPriority != 4)
      && (MentionsProject(content) ==> e.finalPriority == 4)
      && (!e.overridden ==> e.finalPriority == e.csvPriority)
      && (e.overridden ==> e.finalPriority == 4)
      && |e.content| <= 50 && IsPrefix(e.content, content)
      && (|content| <= 50 ==> e.content == content)
  {
  }

  /** A priority written as an integer is read back; anything else falls back to 1. */
  lemma CsvPriorityRoundTrip(p: int)
    ensures CsvPriority(IntToString(p)) == p
    ensures CsvPriority("") == 1
    ensures CsvPriority("high") == 1
  {
    ParseIntRoundTrip(p);
    assert ParseSigned(Strip("high")) == None by {
      assert Strip("high") == "high";
      assert !IsDigit('h');
    }
  }

  /** The positions of the task rows, in row order. */
  function TaskRows(rows: seq<Row>): (r: seq<nat>)
    ensures forall k :: 0 <= k < |r| ==> r[k] < |rows| && IsTaskRow(rows[r[k]])
    ensures forall i :: 0 <= i < |rows| && IsTaskRow(rows[i]) ==> i in r
    ensures forall a, b :: 0 <= a < b < |r| ==> r[a] < r[b]
  {
    if rows == [] then []
    else
      var n := |rows| - 1;
      var front := TaskRows(rows[..n]);
      assert forall k :: 0 <= k < |front| ==> rows[..n][front[k]] == rows[front[k]];
      front + (if IsTaskRow(rows[n]) then [n] else [])
  }

  /** The k-th entry is made from the k-th task row: one entry per task row, in row order. */
  lemma {:induction false} EntriesSpec(rows: seq<Row>)
    ensures |Entries(rows)| == |TaskRows(rows)|
    ensures forall k :: 0 <= k < |Entries(rows)| ==> Entries(rows)[k] == EntryOf(rows[TaskRows(rows)[k]])
  {
    if rows != [] {
      var n := |rows| - 1;
      var front := rows[..n];
      EntriesSpec(front);
      forall k | 0 <= k < |Entries(front)|
        ensures Entries(rows)[k] == EntryOf(rows[TaskRows(rows)[k]])
      {
        assert Entries(rows)[k] == Entries(front)[k];
        assert TaskRows(rows)[k] == TaskRows(front)[k];
        assert front[TaskRows(front)[k]] == rows[TaskRows(front)[k]];
      }
    }
  }

  /** The entries whose final priority is p, in list order. */
  function InBucket(tasks: seq<Entry>, p: int): (r: seq<Entry>)
    ensures forall e :: e in r <==> e in tasks && e.finalPriority == p
    ensures |r| <= |tasks|
  {
    if tasks == [] then []
    else (if tasks[0].finalPriority == p then [tasks[0]] else []) + InBucket(tasks[1..], p)
  }

  /** The number of entries whose final priority is outside 1..4. */
  function Unlisted(tasks: seq<Entry>): nat {
    if tasks == [] then 0
    else (if 1 <= tasks[0].finalPriority <= 4 then 0 else 1) + Unlisted(tasks[1..])
  }

  /** The number of overridden entries. */
  function CountOverridden(tasks: seq<Entry>): nat {
    if tasks == [] then 0 else (if tasks[0].overridden then 1 else 0) + CountOverridden(tasks[1..])
  }

  /** The four buckets and the unlisted entries account for every entry exactly once. */
  lemma {:induction false} BucketsPartition(tasks: seq<Entry>)
    ensures |InBucket(tasks, 4)| + |InBucket(tasks, 3)| + |InBucket(tasks, 2)| + |InBucket(tasks, 1)| + Unlisted(tasks) == |tasks|
  {
    if tasks != [] {
      BucketsPartition(tasks[1..]);
    }
  }

  /** Entries keep the property EntrySpec gives them: an overridden entry has final priority 4. */
  predicate Consistent(tasks: seq<Entry>) {
    forall k :: 0 <= k < |tasks| ==> tasks[k].overridden ==> tasks[k].finalPriority == 4
  }

  /** Every entry read from the rows is consistent. */
  lemma {:induction false} EntriesConsistent(rows: seq<Row>)
    ensures Consistent(Entries(rows))
  {
    if rows != [] {
      EntriesConsistent(rows[..|rows| - 1]);
      EntrySpec(rows[|rows| - 1]);
    }
  }

  /** The override count never exceeds the high-priority bucket. */
  lemma {:induction false} OverridesInTopBucket(tasks: seq<Entry>)
    requires Consistent(tasks)
    ensures CountOverridden(tasks) <= |InBucket(tasks, 4)|
  {
    if tasks != [] {
      assert Consistent(tasks[1..]) by {
        forall k | 0 <= k < |tasks[1..]|
          ensures tasks[1..][k].overridden ==> tasks[1..][k].finalPriority == 4
        {
          assert tasks[1..][k] == tasks[k + 1];
        }
      }
      OverridesInTopBucket(tasks[1..]);
    }
  }

  /** The marker printed after an overridden high-priority entry. */
  const OverrideMarker: string := " (OVERRIDE from @PROJECT)"

  /** One report line: two spaces, the content, and the marker when asked for and overridden. */
  function LineOf(e: Entry, marked: bool): string {
    "  " + e.content + (if marked && e.overridden then OverrideMarker else "")
  }

  /** One of the four report loops: a line for each entry of final priority p, in list order. */
  method BucketLines(tasks: seq<Entry>, p: int, marked: bool) returns (lines: seq<string>)
    ensures |lines| == |InBucket(tasks, p)|
    ensures forall k :: 0 <= k < |lines| ==> lines[k] == LineOf(InBucket(tasks, p)[k], marked)
  {
    lines := [];
    var i := 0;
    while i < |tasks|
      invariant 0 <= i <= |tasks|
      invariant |lines| == |InBucket(tasks[..i], p)|
      invariant forall k :: 0 <= k < |lines| ==> lines[k] == LineOf(InBucket(tasks[..i], p)[k], marked)
    {
      BucketSplit(tasks, i, p);
      if tasks[i].finalPriority == p {
        lines := lines + [LineOf(tasks[i], marked)];
      }
      i := i + 1;
    }
    assert tasks[..|tasks|] == tasks;
  }

  /** InBucket over the first i + 1 entries. */
  lemma BucketSplit(tasks: seq<Entry>, i: nat, p: int)
    requires i < |tasks|
    ensures InBucket(tasks[..i + 1], p) == InBucket(tasks[..i], p) + (if tasks[i].finalPriority == p then [tasks[i]] else [])
  {
    BucketAppend(tasks[..i], tasks[i], p);
    assert tasks[..i + 1] == tasks[..i] + [tasks[i]];
  }

  /** InBucket over a list with one more entry at its end. */
  lemma {:induction false} BucketAppend(tasks: seq<Entry>, e: Entry, p: int)
    ensures InBucket(tasks + [e], p) == InBucket(tasks, p) + (if e.finalPriority == p then [e] else [])
  {
    if tasks != [] {
      assert (tasks + [e])[1..] == tasks[1..] + [e];
      BucketAppend(tasks[1..], e, p);
    }
  }

  /** The report's contents: the two counts and the lines of the four buckets. */
  datatype Report = Report(total: nat, overrides: nat, high: seq<string>, mediumHigh: seq<string>, medium: seq<string>, low: seq<string>)

  /**
   * The report: the number of tasks, the number overridden, then the
   * lines of priority 4 (the only bucket that shows the marker), 3, 2 and 1.
   */
  method WriteReport(tasks: seq<Entry>) returns (report: Report)
    ensures report.total == |tasks| && report.overrides == CountOverridden(tasks)
    ensures |report.high| == |InBucket(tasks, 4)|
    ensures forall k :: 0 <= k < |report.high| ==> report.high[k] == LineOf(InBucket(tasks, 4)[k], true)
    ensures |report.mediumHigh| == |InBucket(tasks, 3)|
    ensures forall k :: 0 <= k < |report.mediumHigh| ==> report.mediumHigh[k] == LineOf(InBucket(tasks, 3)[k], false)
    ensures |report.medium| == |InBucket(tasks, 2)|
    ensures forall k :: 0 <= k < |report.medium| ==> report.medium[k] == LineOf(InBucket(tasks, 2)[k], false)
    ensures |report.low| == |InBucket(tasks, 1)|
    ensures forall k :: 0 <= k < |report.low| ==> report.low[k] == LineOf(InBucket(tasks, 1)[k], false)
  {
    var high := BucketLines(tasks, 4, true);
    var mediumHigh := BucketLines(tasks, 3, false);
    var medium := BucketLines(tasks, 2, false);
    var low := BucketLines(tasks, 1, false);
    report := Report(|tasks|, CountOverridden(tasks), high, mediumHigh, medium, low);
  }

  /** The marker is shown on a line exactly when the entry is overridden and the bucket is the high one. */
  lemma MarkerSpec(e: Entry, marked: bool)
    ensures var line := LineOf(e, marked);
      (marked && e.overridden) <==> (|line| >= |OverrideMarker| + 2 && line[|line| - |OverrideMarker|..] == OverrideMarker && line[..|line| - |OverrideMarker|] == "  " + e.content)
  {
    var line := LineOf(e, marked);
    if !(marked && e.overridden) && |line| >= |OverrideMarker| + 2 && line[..|line| - |OverrideMarker|] == "  " + e.content {
      assert false;
    }
  }

  /** A task row with priority 7 and no @PROJECT is read but shown in no bucket. */
  lemma UnlistedExample()
    ensures var rows := [map["TYPE" := "task", "CONTENT" := "Review", "PRIORITY" := "7"]];
      |Entries(rows)| == 1 && Unlisted(Entries(rows)) == 1
  {
    var row := map["TYPE" := "task", "CONTENT" := "Review", "PRIORITY" := "7"];
    assert Strip("7") == "7";
    assert ParseSigned("7") == Some(7);
    assert Strip("Review") == "Review";
    assert Upper("Review") == "REVIEW";
    assert !Contains("REVIEW", "@PROJECT");
    assert [row][..0] == [];
  }
}
