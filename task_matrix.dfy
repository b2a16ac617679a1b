/**
 * create_project_task_matrix.py: the project / task / person matrix built
 * from a Kumu export. For each task it derives a status from the tags, a
 * flag saying whether the task also appears in Todoist, and the major
 * projects and the people it is connected to; for each major project it
 * lists the connected tasks. The page then offers a tag menu, draws at most
 * three person chips per row, and hides rows with applyFilters.
 *
 * The pandas tables are sequences of records; a cell pandas reads as NaN is
 * None.
 */
module TaskMatrix {
  import opened Wrappers
  import opened Text
  import opened Sequences

  /** A row of the Kumu task sheet. */
  datatype KumuTask = KumuTask(name: string, tags: Option<string>, description: Option<string>)

  /** A row of the Kumu people sheet. */
  datatype Person = Person(name: string, image: Option<string>)

  /** A row of the Kumu connections sheet. */
  datatype Connection = Connection(from: string, to: string)

  /** An entry of People_Data. */
  datatype PersonData = PersonData(name: string, image: string)

  /** A row of the matrix. */
  datatype MatrixRow = MatrixRow(
    task: string,
    status: string,
    tags: string,
    inTodoist: bool,
    projects: string,
    people: string,
    peopleData: seq<PersonData>,
    teamSize: nat,
    description: string)

  /** A row of the project summary. */
  datatype SummaryRow = SummaryRow(project: string, tasks: nat, taskList: string)

  /** major_projects */
  const MajorProjects: seq<string> := ["ONCOINTEGRA", "PPM4ML", "VU SMEC Kidnex", "NEPHROSCAN.LT", "Hex4Path"]

  /** The task's status: the first of ACTIVE, IDEA, DONE that occurs in its tags, else Unknown. */
  function Status(tags: string): string {
    if Contains(tags, "ACTIVE") then "ACTIVE"
    else if Contains(tags, "IDEA") then "IDEA"
    else if Contains(tags, "DONE") then "DONE"
    else "Unknown"
  }

  /**
   * Each status is named by the tags exactly when the earlier ones are
   * not; tags holding none of the three words give Unknown, and missing
   * tags (the empty text) do.
   */
  lemma StatusSpec(tags: string)
    ensures Status(tags) == "ACTIVE" <==> Contains(tags, "ACTIVE")
    ensures Status(tags) == "IDEA" <==> !Contains(tags, "ACTIVE") && Contains(tags, "IDEA")
    ensures Status(tags) == "DONE" <==> !Contains(tags, "ACTIVE") && !Contains(tags, "IDEA") && Contains(tags, "DONE")
    ensures Status(tags) == "Unknown" <==> !Contains(tags, "ACTIVE") && !Contains(tags, "IDEA") && !Contains(tags, "DONE")
    ensures Status("") == "Unknown"
  {
    assert !OccursAt("", "ACTIVE", 0);
    assert !OccursAt("", "IDEA", 0);
    assert !OccursAt("", "DONE", 0);
  }

  /** todoist_tasks: the lower-cased contents of the Todoist tasks. */
  function TodoistSet(contents: seq<string>): set<string> {
    set c | c in contents :: Lower(c)
  }

  /** A lower-cased task name and a lower-cased Todoist content match when either contains the other. */
  predicate Matches(name: string, todoist: string) {
    Contains(Lower(name), todoist) || Contains(todoist, Lower(name))
  }

  /** in_todoist */
  predicate InTodoist(name: string, todoist: set<string>) {
    exists t :: t in todoist && Matches(name, t)
  }

  /**
   * A task whose lower-cased name is itself a Todoist content is in
   * Todoist, and so is every task when Todoist has a task with empty content;
   * with no Todoist tasks nothing is.
   */
  lemma InTodoistCases(name: string, todoist: set<string>)
    ensures Lower(name) in todoist ==> InTodoist(name, todoist)
    ensures "" in todoist ==> InTodoist(name, todoist)
    ensures todoist == {} ==> !InTodoist(name, todoist)
  {
    if Lower(name) in todoist {
      ContainsInfix(Lower(name), 0, |Lower(name)|);
      assert Lower(name)[0..|Lower(name)|] == Lower(name);
      assert Matches(name, Lower(name));
    }
    if "" in todoist {
      ContainsEmpty(Lower(name));
      assert Matches(name, "");
    }
  }

  /**
   * in_todoist holds exactly when some Todoist content, lower-cased,
   * contains the lower-cased task name or is contained in it; the test reads
   * the two lower-cased strings the same way round in either order.
   */
  lemma InTodoistIff(name: string, contents: seq<string>)
    ensures InTodoist(name, TodoistSet(contents)) <==>
      exists k :: 0 <= k < |contents| && Matches(name, Lower(contents[k]))
    ensures forall other :: Matches(name, Lower(other)) <==> Matches(other, Lower(name))
  {
    if InTodoist(name, TodoistSet(contents)) {
      var t :| t in TodoistSet(contents) && Matches(name, t);
      var c :| c in contents && Lower(c) == t;
      var k :| 0 <= k < |contents| && contents[k] == c;
      assert Matches(name, Lower(contents[k]));
    }
    if exists k :: 0 <= k < |contents| && Matches(name, Lower(contents[k])) {
      var k :| 0 <= k < |contents| && Matches(name, Lower(contents[k]));
      assert Lower(contents[k]) in TodoistSet(contents);
    }
  }

  /** A connection touches the task when the task is either end. */
  predicate Touches(c: Connection, name: string) {
    c.from == name || c.to == name
  }

  /** `conn['To'] if conn['From'] == name else conn['From']` */
  function OtherEnd(c: Connection, name: string): string {
    if c.from == name then c.to else c.from
  }

  /** The other ends of the connections that touch the task, in connection order. */
  function Others(name: string, conns: seq<Connection>): (r: seq<string>)
    ensures |r| <= |conns|
  {
    if conns == [] then []
    else
      var c := conns[|conns| - 1];
      Others(name, conns[..|conns| - 1]) + (if Touches(c, name) then [OtherEnd(c, name)] else [])
  }

  /**
   * Others goes connection by connection: two runs of connections give
   * their two lists one after the other, and a single connection gives its
   * far end exactly when it touches the task. Together these fix Others
   * on every input, order and repeats included.
   */
  lemma {:induction false} OthersConcat(name: string, a: seq<Connection>, b: seq<Connection>)
    ensures Others(name, a + b) == Others(name, a) + Others(name, b)
    ensures forall c :: Others(name, [c]) == if Touches(c, name) then [OtherEnd(c, name)] else []
  {
    if b == [] {
      assert a + b == a;
    } else {
      var b', c := b[..|b| - 1], b[|b| - 1];
      var last := if Touches(c, name) then [OtherEnd(c, name)] else [];
      OthersConcat(name, a, b');
      DropLastOfConcat(a, b);
      AppendAssoc(Others(name, a), Others(name, b'), last);
    }
    forall c
      ensures Others(name, [c]) == if Touches(c, name) then [OtherEnd(c, name)] else []
    {
      assert [c][..0] == [];
    }
  }

  /** Every entry of Others is the far end of a connection that touches the task. */
  lemma {:induction false} OthersSpec(name: string, conns: seq<Connection>, k: nat)
    requires k < |Others(name, conns)|
    ensures exists j :: 0 <= j < |conns| && Touches(conns[j], name) && OtherEnd(conns[j], name) == Others(name, conns)[k]
  {
    var earlier := Others(name, conns[..|conns| - 1]);
    if k < |earlier| {
      OthersSpec(name, conns[..|conns| - 1], k);
      var j :| 0 <= j < |conns| - 1 && Touches(conns[..|conns| - 1][j], name) && OtherEnd(conns[..|conns| - 1][j], name) == earlier[k];
      assert conns[j] == conns[..|conns| - 1][j];
    } else {
      assert Touches(conns[|conns| - 1], name);
    }
  }

  /** Every connection that touches the task gives its far end to Others. */
  lemma {:induction false} OthersComplete(name: string, conns: seq<Connection>, j: nat)
    requires j < |conns| && Touches(conns[j], name)
    ensures OtherEnd(conns[j], name) in Others(name, conns)
  {
    if j < |conns| - 1 {
      OthersComplete(name, conns[..|conns| - 1], j);
    }
  }

  /** `name in major_projects` */
  predicate IsMajor(name: string) {
    name == "ONCOINTEGRA" || name == "PPM4ML" || name == "VU SMEC Kidnex" || name == "NEPHROSCAN.LT" || name == "Hex4Path"
  }

  /** The entries of a list that are major projects, in order. */
  function ProjectsOf(others: seq<string>): (r: seq<string>)
    ensures forall k :: 0 <= k < |r| ==> IsMajor(r[k]) && r[k] in others
    ensures |r| <= |others|
  {
    if others == [] then []
    else ProjectsOf(others[..|others| - 1]) + (if IsMajor(others[|others| - 1]) then [others[|others| - 1]] else [])
  }

  predicate IsPerson(people: seq<Person>, name: string) {
    exists k :: 0 <= k < |people| && people[k].name == name
  }

  /** The entries of a list that label a person, in order. */
  function PeopleOf(others: seq<string>, people: seq<Person>): (r: seq<string>)
    ensures forall k :: 0 <= k < |r| ==> IsPerson(people, r[k]) && r[k] in others
    ensures |r| <= |others|
  {
    if others == [] then []
    else PeopleOf(others[..|others| - 1], people) + (if IsPerson(people, others[|others| - 1]) then [others[|others| - 1]] else [])
  }

  /** The position of the first person row with the label: `.iloc[0]` of the rows with that label. */
  function FirstPerson(people: seq<Person>, name: string): (k: nat)
    requires IsPerson(people, name)
    ensures k < |people| && people[k].name == name
    ensures forall j :: 0 <= j < k ==> people[j].name != name
  {
    if people[0].name == name then 0
    else
      assert IsPerson(people[1..], name) by {
        var k :| 0 <= k < |people| && people[k].name == name;
        assert people[1..][k - 1] == people[k];
      }
      1 + FirstPerson(people[1..], name)
  }

  /** The People_Data entry for a person, from the first row with that label. */
  function DataOf(people: seq<Person>, name: string): (d: PersonData)
    requires IsPerson(people, name)
    ensures d.name == name
  {
    var p := people[FirstPerson(people, name)];
    PersonData(name, if p.image.Some? && p.image.value != "" then p.image.value else "")
  }

  /**
   * A person's People_Data image is the Image of the first row with that
   * label when it is present and not empty, and '' otherwise.
   */
  lemma DataOfImage(people: seq<Person>, name: string, k: nat)
    requires k < |people| && people[k].name == name
    requires forall j :: 0 <= j < k ==> people[j].name != name
    ensures IsPerson(people, name)
    ensures people[k].image.Some? && people[k].image.value != "" ==> DataOf(people, name).image == people[k].image.value
    ensures people[k].image.None? || people[k].image.value == "" ==> DataOf(people, name).image == ""
  {
    assert FirstPerson(people, name) == k;
  }

  /** One more connection adds at most its far end to Others. */
  lemma OthersStep(name: string, conns: seq<Connection>, i: nat)
    requires i < |conns|
    ensures Others(name, conns[..i + 1]) ==
      Others(name, conns[..i]) + (if Touches(conns[i], name) then [OtherEnd(conns[i], name)] else [])
  {
    assert conns[..i + 1][..i] == conns[..i];
  }

  /** The filters over a list with one more entry. */
  lemma FilterStep(s: seq<string>, x: string, labels: seq<string>, people: seq<Person>)
    ensures ProjectsOf(s + [x]) == ProjectsOf(s) + (if IsMajor(x) then [x] else [])
    ensures PeopleOf(s + [x], people) == PeopleOf(s, people) + (if IsPerson(people, x) then [x] else [])
    ensures KeepLabels(s + [x], labels) == KeepLabels(s, labels) + (if x in labels then [x] else [])
  {
    assert (s + [x])[..|s|] == s;
  }

  /**
   * One connection's other end, appended to related_projects when it is a
   * major project and to related_people and related_people_data when it
   * labels a person.
   */
  method AddOther(other: string, people: seq<Person>, projects: seq<string>, persons: seq<string>, personsData: seq<PersonData>)
    returns (projects': seq<string>, persons': seq<string>, personsData': seq<PersonData>)
    requires |personsData| == |persons|
    requires forall k :: 0 <= k < |persons| ==> IsPerson(people, persons[k]) && personsData[k] == DataOf(people, persons[k])
    ensures projects' == projects + (if IsMajor(other) then [other] else [])
    ensures persons' == persons + (if IsPerson(people, other) then [other] else [])
    ensures |personsData'| == |persons'|
    ensures forall k :: 0 <= k < |persons'| ==> IsPerson(people, persons'[k]) && personsData'[k] == DataOf(people, persons'[k])
  {
    projects', persons', personsData' := projects, persons, personsData;
    if IsMajor(other) {
      projects' := projects' + [other];
    }
    if IsPerson(people, other) {
      persons' := persons' + [other];
      personsData' := personsData' + [DataOf(people, other)];
    }
  }

  /**
   * The loop over task_connections: related_projects, related_people and
   * related_people_data, each appended to in connection order.
   */
  method Related(name: string, conns: seq<Connection>, people: seq<Person>)
    returns (projects: seq<string>, persons: seq<string>, personsData: seq<PersonData>)
    ensures projects == ProjectsOf(Others(name, conns))
    ensures persons == PeopleOf(Others(name, conns), people)
    ensures |personsData| == |persons|
    ensures forall k :: 0 <= k < |persons| ==> IsPerson(people, persons[k]) && personsData[k] == DataOf(people, persons[k])
  {
    projects, persons, personsData := [], [], [];
    var i := 0;
    while i < |conns|
      invariant 0 <= i <= |conns|
      invariant projects == ProjectsOf(Others(name, conns[..i]))
      invariant persons == PeopleOf(Others(name, conns[..i]), people)
      invariant |personsData| == |persons|
      invariant forall k :: 0 <= k < |persons| ==> IsPerson(people, persons[k]) && personsData[k] == DataOf(people, persons[k])
    {
      var c := conns[i];
      OthersStep(name, conns, i);
      ghost var prev := Others(name, conns[..i]);
      if Touches(c, name) {
        var other := OtherEnd(c, name);
        FilterStep(prev, other, [], people);
        assert Others(name, conns[..i + 1]) == prev + [other];
        projects, persons, personsData := AddOther(other, people, projects, persons, personsData);
        assert projects == ProjectsOf(prev + [other]);
        assert persons == PeopleOf(prev + [other], people);
      } else {
        assert Others(name, conns[..i + 1]) == prev;
      }
      i := i + 1;
    }
    assert conns[..|conns|] == conns;
  }

  /** The matrix row for one task, from the lists the connection loop gathers. */
  function RowOf(task: KumuTask, todoist: set<string>, projects: seq<string>, persons: seq<string>, personsData: seq<PersonData>): MatrixRow {
    var tags := if task.tags.Some? then task.tags.value else "";
    MatrixRow(
      task.name,
      Status(tags),
      tags,
      InTodoist(task.name, todoist),
      if projects == [] then "Independent" else Join(projects, ", "),
      if persons == [] then "Unassigned" else Join(Take(persons, 3), ", "),
      personsData,
      |persons|,
      if task.description.Some? then task.description.value else "")
  }

  /** The row create_project_task_matrix makes for one task. */
  function MatrixRowOf(task: KumuTask, todoist: set<string>, conns: seq<Connection>, people: seq<Person>): MatrixRow {
    var persons := PeopleOf(Others(task.name, conns), people);
    RowOf(task, todoist, ProjectsOf(Others(task.name, conns)), persons,
      seq(|persons|, k requires 0 <= k < |persons| => DataOf(people, persons[k])))
  }

  /** The body of create_project_task_matrix's loop: the connection loop, then the row. */
  method TaskRow(task: KumuTask, todoist: set<string>, conns: seq<Connection>, people: seq<Person>) returns (row: MatrixRow)
    ensures row == MatrixRowOf(task, todoist, conns, people)
  {
    var projects, persons, personsData := Related(task.name, conns, people);
    assert personsData == seq(|persons|, k requires 0 <= k < |persons| => DataOf(people, persons[k]));
    row := RowOf(task, todoist, projects, persons, personsData);
  }

  /** create_project_task_matrix: one row per task, in task order. */
  method CreateProjectTaskMatrix(tasks: seq<KumuTask>, todoistContents: seq<string>, conns: seq<Connection>, people: seq<Person>)
    returns (matrix: seq<MatrixRow>)
    ensures |matrix| == |tasks|
    ensures forall i :: 0 <= i < |tasks| ==> matrix[i] == MatrixRowOf(tasks[i], TodoistSet(todoistContents), conns, people)
  {
    var todoist := TodoistSet(todoistContents);
    matrix := [];
    var i := 0;
    while i < |tasks|
      invariant 0 <= i <= |tasks| && |matrix| == i
      invariant forall j :: 0 <= j < i ==> matrix[j] == MatrixRowOf(tasks[j], todoist, conns, people)
    {
      var row := TaskRow(tasks[i], todoist, conns, people);
      assert forall j :: 0 <= j < i ==> (matrix + [row])[j] == matrix[j];
      matrix := matrix + [row];
      i := i + 1;
    }
  }

  /** No major project's name starts like 'Independent'. */
  lemma MajorIsNotIndependent(parts: seq<string>)
    requires parts != [] && forall k :: 0 <= k < |parts| ==> IsMajor(parts[k])
    ensures Join(parts, ", ") != "Independent"
  {
    JoinStartsWithFirst(parts, ", ");
    MajorInitial(parts[0]);
    assert Join(parts, ", ")[0] == parts[0][0];
  }

  /** Every major project's name is non-empty and does not start with 'I'. */
  lemma MajorInitial(p: string)
    requires IsMajor(p)
    ensures |p| > 0 && p[0] != 'I'
  {
  }

  /**
   * The row's Projects reads 'Independent' exactly when the task touches no
   * major project; otherwise it lists them in connection order. People is
   * 'Unassigned' for no people and otherwise names the first three, while
   * Team_Size and People_Data count them all.
   */
  lemma MatrixRowSpec(task: KumuTask, todoist: set<string>, conns: seq<Connection>, people: seq<Person>)
    ensures var row := MatrixRowOf(task, todoist, conns, people);
      var projects := ProjectsOf(Others(task.name, conns));
      var persons := PeopleOf(Others(task.name, conns), people);
      && (row.projects == "Independent" <==> projects == [])
      && (projects != [] ==> row.projects == Join(projects, ", "))
      && (persons == [] ==> row.people == "Unassigned")
      && (persons != [] ==> row.people == Join(persons[..if |persons| < 3 then |persons| else 3], ", "))
      && row.teamSize == |persons| == |row.peopleData|
      && (forall k :: 0 <= k < |persons| ==> row.peopleData[k].name == persons[k])
  {
    var projects := ProjectsOf(Others(task.name, conns));
    if projects != [] {
      MajorIsNotIndependent(projects);
    }
  }

  /** The entries of a list that are task labels, in order. */
  function KeepLabels(others: seq<string>, labels: seq<string>): (r: seq<string>)
    ensures forall k :: 0 <= k < |r| ==> r[k] in labels && r[k] in others
    ensures |r| <= |others|
  {
    if others == [] then []
    else KeepLabels(others[..|others| - 1], labels) + (if others[|others| - 1] in labels then [others[|others| - 1]] else [])
  }

  /**
   * What the three filters keep: each value occurs in the result as often as
   * in the input when it is a major project (ProjectsOf), labels a person
   * (PeopleOf) or labels a task (KeepLabels), and not at all otherwise.
   */
  lemma {:induction false} FilterCounts(others: seq<string>, labels: seq<string>, people: seq<Person>, x: string)
    ensures multiset(ProjectsOf(others))[x] == if IsMajor(x) then multiset(others)[x] else 0
    ensures multiset(PeopleOf(others, people))[x] == if IsPerson(people, x) then multiset(others)[x] else 0
    ensures multiset(KeepLabels(others, labels))[x] == if x in labels then multiset(others)[x] else 0
  {
    if others != [] {
      var init, last := others[..|others| - 1], others[|others| - 1];
      FilterCounts(init, labels, people, x);
      FrontLast(others);
    }
  }

  /**
   * The three filters keep order: filtering two runs of entries gives the
   * two filtered runs one after the other. With FilterStep's single-entry
   * case this fixes each filter on every input.
   */
  lemma {:induction false} FiltersConcat(a: seq<string>, b: seq<string>, labels: seq<string>, people: seq<Person>)
    ensures ProjectsOf(a + b) == ProjectsOf(a) + ProjectsOf(b)
    ensures PeopleOf(a + b, people) == PeopleOf(a, people) + PeopleOf(b, people)
    ensures KeepLabels(a + b, labels) == KeepLabels(a, labels) + KeepLabels(b, labels)
  {
    if b == [] {
      assert a + b == a;
    } else {
      var b', x := b[..|b| - 1], b[|b| - 1];
      FiltersConcat(a, b', labels, people);
      DropLastOfConcat(a, b);
      AppendAssoc(ProjectsOf(a), ProjectsOf(b'), if IsMajor(x) then [x] else []);
      AppendAssoc(PeopleOf(a, people), PeopleOf(b', people), if IsPerson(people, x) then [x] else []);
      AppendAssoc(KeepLabels(a, labels), KeepLabels(b', labels), if x in labels then [x] else []);
    }
  }

  /** Task_List: the first five related tasks joined with '; ', then '...' when there are more. */
  function TaskList(related: seq<string>): string {
    Join(Take(related, 5), "; ") + (if |related| > 5 then "..." else "")
  }

  /** The loop over proj_connections: related_tasks, appended in connection order. */
  method RelatedTasks(proj: string, taskLabels: seq<string>, conns: seq<Connection>) returns (related: seq<string>)
    ensures related == KeepLabels(Others(proj, conns), taskLabels)
  {
    related := [];
    var i := 0;
    while i < |conns|
      invariant 0 <= i <= |conns|
      invariant related == KeepLabels(Others(proj, conns[..i]), taskLabels)
    {
      var c := conns[i];
      OthersStep(proj, conns, i);
      ghost var prev := Others(proj, conns[..i]);
      if Touches(c, proj) {
        var other := OtherEnd(c, proj);
        FilterStep(prev, other, taskLabels, []);
        assert Others(proj, conns[..i + 1]) == prev + [other];
        if other in taskLabels {
          related := related + [other];
        }
        assert related == KeepLabels(prev + [other], taskLabels);
      } else {
        assert Others(proj, conns[..i + 1]) == prev;
      }
      assert related == KeepLabels(Others(proj, conns[..i + 1]), taskLabels);
      i := i + 1;
    }
    assert conns[..|conns|] == conns;
  }

  /** create_project_summary: one row per major project, in the order of major_projects. */
  method CreateProjectSummary(taskLabels: seq<string>, conns: seq<Connection>) returns (summary: seq<SummaryRow>)
    ensures |summary| == |MajorProjects|
    ensures forall i :: 0 <= i < |MajorProjects| ==>
      var related := KeepLabels(Others(MajorProjects[i], conns), taskLabels);
      summary[i] == SummaryRow(MajorProjects[i], |related|, TaskList(related))
  {
    summary := [];
    var i := 0;
    while i < |MajorProjects|
      invariant 0 <= i <= |MajorProjects| && |summary| == i
      invariant forall j :: 0 <= j < i ==>
        var related := KeepLabels(Others(MajorProjects[j], conns), taskLabels);
        summary[j] == SummaryRow(MajorProjects[j], |related|, TaskList(related))
    {
      var proj := MajorProjects[i];
      var related := RelatedTasks(proj, taskLabels, conns);
      summary := summary + [SummaryRow(proj, |related|, TaskList(related))];
      i := i + 1;
    }
  }

  /**
   * Task_List names every related task when there are at most five, and
   * otherwise the first five followed by '...'.
   */
  lemma TaskListSpec(related: seq<string>)
    ensures |related| <= 5 ==> TaskList(related) == Join(related, "; ")
    ensures |related| > 5 ==>
      var t := TaskList(related);
      |t| >= 3 && t[|t| - 3..] == "..." && t[..|t| - 3] == Join(related[..5], "; ")
  {
    if |related| <= 5 {
      assert Take(related, 5) == related;
      assert TaskList(related) == Join(related, "; ") + "";
    }
  }
}
