# PORTFOLIO task tools, modelled in Dafny

The PORTFOLIO scripts turn a Todoist CSV export and a Kumu network export into
static dashboards. This project models the in-memory logic of those scripts and
proves what it guarantees:

- **build_task_hierarchy** (`Hierarchy`, hierarchy.dfy). The stack-based builder
  that both portal scripts define identically turns a flat list of indented tasks
  into a forest.
  - It is a method over an array of per-task `children` lists, so the in-place
    appends to the Python dicts are explicit.
  - It is proved against a declarative account: each task's effective depth, its
    parent (the most recent earlier task one level shallower), and the stack of
    open ancestors.
- **buildHierarchy** (`BrowserHierarchy`, browser_hierarchy.dfy). The JavaScript
  builder embedded in the v2 page keeps the last task seen at each indent in a
  map that is never cleared.
  - It is a method whose loop overwrites that map.
  - Lemmas compare it with the stack builder: on well-formed indents the two
    build the same forest; otherwise stale entries capture later tasks, and
    orphans become roots instead of being dropped.
- **parse_csv** (`PortalParse`, portal_parse.dfy). The row loop of both portal
  scripts is a state machine over the sections, `current_section`,
  `last_task_id` and the task list.
  - Section, task and note rows are handled as the code does.
  - The two versions read PRIORITY differently.
  - A failing `int()` ends the parse with an error naming the row.
- **The v2 page's view logic** (`PortalView`, portal_view.dfy): person-name
  extraction in Python and in JavaScript, the `getFilteredTasks` predicate, the
  priority menu and its label tables.
- **create_project_task_matrix.py** (`TaskMatrix`, task_matrix.dfy, and
  `MatrixPage`, matrix_page.dfy):
  - the per-task status, Todoist flag, projects and people;
  - the project summary;
  - the tag menu, the people chips and the `applyFilters` row predicate.
- **verify_priorities.py** (`Priorities`, priorities.dfy): the per-row priority
  parse, the `@PROJECT` override, the report's counts and its four priority
  buckets.
- **Python string operations** (`Text`, text.dfy) that the scripts rely on:
  `str.strip`, substring tests, ASCII case mapping, `int()`/`str()`, `join`,
  one-character `split` and string order.
- **Sequence facts** (`Sequences`, sequences.dfy): concatenation lemmas that the
  order-preservation proofs share.

Behaviour the model follows from the code, not from the scripts' comments or
their intended design:

- An indent below 1 is not clamped. The pop loop empties the stack and `pop()`
  raises. `Hierarchy.BuildTaskHierarchy` reports the task it stopped at.
- A task with indent above 1 that meets an empty stack is not promoted to a root.
  It is pushed but attached nowhere, so it and everything hanging under it are
  missing from the returned forest.
- An indent gap attaches a task to whatever is on top of the stack. With indents
  [1, 3, 3], the second indent-3 task is a child of the first.
- The matrix page's tag filter tests for a substring, so choosing 'IDEA' also
  keeps rows tagged 'IDEAS'. A tag literally named 'all' gets the menu value
  'all', which the filter reads as 'All Tags'.
- `build_task_hierarchy` is defined but never called by either script. The page
  builds its tree in the browser with `buildHierarchy`.

## Model

| member | source | states |
|---|---|---|
| Hierarchy.Depth | create_portfolio_portal_v2.py:111-123 | a task's stack position is below its indent, and is 0 exactly for the first task or an indent-1 task |
| Hierarchy.LastAtDepth | create_portfolio_portal_v2.py:113-123 | the last earlier task at a depth is at that depth, and no later task before n is |
| Hierarchy.Parent | create_portfolio_portal_v2.py:116-122 | a task has no parent exactly when it is the first task or has indent 1; otherwise its parent comes earlier and is one level shallower |
| Hierarchy.OpenStack | create_portfolio_portal_v2.py:107-123 | task_stack after n tasks has depth + 1 entries, and entry d is the last task seen at depth d |
| Hierarchy.StackStep | create_portfolio_portal_v2.py:113-123 | processing a task cuts the stack to the task's depth and pushes the task |
| Hierarchy.StackAfterTask | create_portfolio_portal_v2.py:113-123 | after a task, the stack is non-empty, its top is that task, it holds at most indent entries, and it is exactly [task] for indent 1 |
| Hierarchy.ParentStillOpen | create_portfolio_portal_v2.py:113-122 | no task between a task and its parent is shallower than the task, so the parent was still open when the task was attached |
| Hierarchy.StaysAbove | create_portfolio_portal_v2.py:113-114 | walking back from a task, depths stay above d until a task of depth d is met |
| Hierarchy.ParentIsLast | create_portfolio_portal_v2.py:120-122 | no task between a task and its parent is at the parent's depth |
| Hierarchy.IntermediateDepth | create_portfolio_portal_v2.py:113-123 | every depth between two tasks' depths is taken by a task between them |
| Hierarchy.DepthReached | create_portfolio_portal_v2.py:113-123 | every depth up to the current task's is held by some earlier task |
| Hierarchy.RootsUpTo | create_portfolio_portal_v2.py:116-117 | root_tasks holds exactly the indent-1 tasks, in input order |
| Hierarchy.ChildrenUpTo | create_portfolio_portal_v2.py:110-122 | a task's 'children' list after n tasks: emptied when the task is processed, then each later task whose parent it is, appended in turn |
| Hierarchy.ChildrenUpToSpec | create_portfolio_portal_v2.py:120-122 | a task's 'children' list holds exactly the tasks whose parent it is, in input order, each once |
| Hierarchy.InChildList | create_portfolio_portal_v2.py:120-122 | a task is in p's 'children' list exactly when p is its parent |
| Hierarchy.ListsChildrenExtend | create_portfolio_portal_v2.py:122 | appending a task to its parent's list keeps that list exact and ordered |
| Hierarchy.ParentsStep | create_portfolio_portal_v2.py:109 | the parents of the first n tasks are those of the first n - 1 tasks, plus the parent of task n - 1 |
| Hierarchy.NoChildrenYet | create_portfolio_portal_v2.py:110 | a task has no children until a later task is processed |
| Hierarchy.ChildrenStep | create_portfolio_portal_v2.py:110-123 | resetting a task's list and then appending it to its parent's list extends the children lists by one task and leaves later lists alone |
| Hierarchy.ChildLists | create_portfolio_portal_v2.py:107-125 | the 'children' list of every task after the first n tasks |
| Hierarchy.InForest | create_portfolio_portal_v2.py:116-125 | a task is reachable from root_tasks: it is a root, or its parent is reachable |
| Hierarchy.InForestIff | create_portfolio_portal_v2.py:116-125 | a task is reachable from the returned roots exactly when some task up to it has indent 1 |
| Hierarchy.InSubtree | create_portfolio_portal_v2.py:116-122 | task d hangs under task a: following parents from d reaches a |
| Hierarchy.SubtreeDeeper | create_portfolio_portal_v2.py:113-122 | every task after a, up to any task hanging under a, is deeper than a |
| Hierarchy.SubtreeAfterRoot | create_portfolio_portal_v2.py:116-122 | a task hanging under a comes no earlier than a |
| Hierarchy.SubtreeBeforeSibling | create_portfolio_portal_v2.py:104-125 | order preservation: a and everything hanging under it come before a's next sibling (the next task with the same parent, or the next root), so a pre-order walk of the forest meets tasks in input order |
| Hierarchy.Placement | create_portfolio_portal_v2.py:113-123 | every task except an orphaned first task is a root or in some 'children' list; it is never in two places; and it is a root exactly when its indent is 1 |
| Hierarchy.DeeperIndentIsChild | create_portfolio_portal_v2.py:113-123 | a task indented deeper than the previous task becomes its child, however big the gap |
| Hierarchy.GapParents | create_portfolio_portal_v2.py:113-123 | for indents [1, 3, 3], the depths are 0, 1, 2 and the parents form a chain |
| Hierarchy.GapExample | create_portfolio_portal_v2.py:113-123 | indents [1, 3, 3] give one root, with the second indent-3 task under the first |
| Hierarchy.ReopenParents | create_portfolio_portal_v2.py:113-123 | for indents [1, 2, 3, 2, 3], the last task's parent is the second indent-2 task |
| Hierarchy.SingleRoot | create_portfolio_portal_v2.py:116-117 | when only the first task has indent 1, it is the only root |
| Hierarchy.ReopenRoots | create_portfolio_portal_v2.py:116-117 | indents [1, 2, 3, 2, 3] give the single root 0 |
| Hierarchy.ReopenRootChildren | create_portfolio_portal_v2.py:113-122 | for indents [1, 2, 3, 2, 3], both indent-2 tasks are children of the root, in order |
| Hierarchy.ReopenInnerChildren | create_portfolio_portal_v2.py:113-122 | for indents [1, 2, 3, 2, 3], each indent-3 task hangs under the indent-2 task open at the time |
| Hierarchy.ReopenExample | create_portfolio_portal_v2.py:113-123 | indents [1, 2, 3, 2, 3] give the lists [[1, 3], [2], [], [4], []]: a shallower task closes the deeper branch |
| Hierarchy.OrphanExample | create_portfolio_portal_v2.py:120-123 | indents [3, 3] give no roots, so neither task reaches the forest |
| Hierarchy.NoParentsNoChildren | create_portfolio_portal_v2.py:116-118 | with only indent-1 tasks, no task gets a child |
| Hierarchy.FlatRoots | create_portfolio_portal_v2.py:116-117 | with only indent-1 tasks, root_tasks is every task in input order |
| Hierarchy.FlatInput | create_portfolio_portal_v2.py:116-118 | all-indent-1 input makes every task a root, in input order, with every 'children' list empty |
| Hierarchy.PopClosed | create_portfolio_portal_v2.py:113-114 | the pop loop leaves the first indent - 1 entries, and fails exactly when indent < 1 |
| Hierarchy.TaskStep | create_portfolio_portal_v2.py:110-123 | one valid task moves the builder's state from n tasks to n + 1 tasks in each of its three cases |
| Hierarchy.ProcessTask | create_portfolio_portal_v2.py:110-123 | one loop iteration keeps the builder's invariant, fails exactly on indent < 1, and changes no later task's list |
| Hierarchy.BuildTaskHierarchy | create_portfolio_portal_v2.py:104-125 | it returns root_tasks and leaves exactly the specified 'children' lists; it stops at the first indent below 1 with everything before it built |
| Hierarchy.BuildTwice | create_portfolio_portal.py:65-66 | because each step resets the task's 'children', a second run over the same tasks gives the same roots and lists |
| BrowserHierarchy.LastWithIndent | create_portfolio_portal_v2.py:705-719 | lastAtLevel[k] after n tasks is the last task with indent k |
| BrowserHierarchy.JsParent | create_portfolio_portal_v2.py:708-717 | a task's parent is earlier, has indent one less, and the task's own indent is not 1 |
| BrowserHierarchy.JsRoots | create_portfolio_portal_v2.py:708-717 | roots holds exactly the parentless tasks, in id order |
| BrowserHierarchy.JsChildren | create_portfolio_portal_v2.py:712-714 | a task's children are exactly the tasks whose parent it is, in id order |
| BrowserHierarchy.JsChildLists | create_portfolio_portal_v2.py:696-723 | there is one children list per task |
| BrowserHierarchy.Step | create_portfolio_portal_v2.py:706-719 | a task's parent is read from lastAtLevel[indent - 1], it goes to the roots or to that parent's children, and lastAtLevel[indent] is overwritten |
| BrowserHierarchy.Place | create_portfolio_portal_v2.py:706-719 | one forEach step extends the builder's state by one task |
| BrowserHierarchy.BuildHierarchy | create_portfolio_portal_v2.py:696-723 | the function returns exactly the specified roots and children lists |
| BrowserHierarchy.Start | create_portfolio_portal_v2.py:697-705 | before the loop there are no levels, no roots and only empty children lists |
| BrowserHierarchy.Finish | create_portfolio_portal_v2.py:720-722 | after the loop, the children lists are the specified ones |
| BrowserHierarchy.ExactlyOnce | create_portfolio_portal_v2.py:708-717 | every task is a root or in exactly one children list, never both |
| BrowserHierarchy.AllInJsForest | create_portfolio_portal_v2.py:708-717 | every task hangs under some root, so nothing is lost |
| BrowserHierarchy.DepthIsIndent | create_portfolio_portal_v2.py:113-123 | on well-formed indents, the stack builder's depth of a task is its indent - 1 |
| BrowserHierarchy.LastAtDepthIsLastWithIndent | create_portfolio_portal_v2.py:705-719 | on well-formed indents, the last task at a depth is lastAtLevel[depth + 1] |
| BrowserHierarchy.SameParent | create_portfolio_portal_v2.py:705-719 | on well-formed indents, both builders give every task the same parent |
| BrowserHierarchy.SameRoots | create_portfolio_portal_v2.py:708-717 | on well-formed indents, both builders collect the same roots |
| BrowserHierarchy.SameChildren | create_portfolio_portal_v2.py:712-714 | on well-formed indents, both builders give every task the same children |
| BrowserHierarchy.SameForest | create_portfolio_portal_v2.py:696-723 | on well-formed indents, both builders build the same forest |
| BrowserHierarchy.StaleLevelExample | create_portfolio_portal_v2.py:712-718 | for indents [1, 2, 3, 1, 3], the stack builder puts the last task under task 3, while a stale lastAtLevel entry puts it under task 1 |
| BrowserHierarchy.OrphansKeptExample | create_portfolio_portal_v2.py:715-717 | for indents [3, 3], the stack builder drops both tasks, while the browser builder makes both roots |
| PortalParse.IndentOf | create_portfolio_portal_v2.py:82 | int(row.get('INDENT', 1)): 1 when the column is missing, the integer, or an error on bad text |
| PortalParse.DateOf | create_portfolio_portal_v2.py:86-87 | DATE and DEADLINE: the stripped text in v1, parse_date's result in v2 |
| PortalParse.ReadRow | create_portfolio_portal_v2.py:53-99 | how one row is read: a section with its stripped CONTENT and IS_COLLAPSED == 'True', a task with its stripped fields and parsed priority and indent (or the int() error), a note, or nothing |
| PortalParse.PriorityOf | create_portfolio_portal_v2.py:66-75 | in v2, a priority is always obtained: int() of the stripped column, or 4 when that is empty or not an integer |
| PortalParse.ReadRowKinds | create_portfolio_portal_v2.py:53-92 | the stripped TYPE decides the kind of row; a section row carries the stripped CONTENT and is collapsed exactly when IS_COLLAPSED is 'True'; a task row fails exactly when int() fails on its PRIORITY (v1) or INDENT, and otherwise carries those values and the stripped content |
| PortalParse.ReadAll | create_portfolio_portal_v2.py:52 | every row is read once |
| PortalParse.SectionName | create_portfolio_portal_v2.py:83 | the section a task is filed under: the current section's name, or 'No Section' |
| PortalParse.Fold | create_portfolio_portal_v2.py:52-100 | parse_csv over the first n rows: each row's step applied in order, stopping at the first int() error |
| PortalParse.Apply | create_portfolio_portal_v2.py:55-100 | one iteration of the row loop is the specified step; last_task_id stays the task count |
| PortalParse.Step | create_portfolio_portal_v2.py:55-100 | one row of the loop: a section row appends section_k (k the sections so far) and makes it current; a task row appends a task with id count + 1 under the current section, or stops at that row when int() raises; a note row goes to the last task's notes, and is dropped before any task |
| PortalParse.ParseCsv | create_portfolio_portal_v2.py:41-102 | the loop computes the specified fold over the rows, error included |
| PortalParse.FailureSticks | create_portfolio_portal_v2.py:82 | once int() has raised, later rows change nothing |
| PortalParse.CountTaskRows | create_portfolio_portal_v2.py:63 | the number of task rows among the first n rows is at most n |
| PortalParse.CountSectionRows | create_portfolio_portal_v2.py:55 | the number of section rows among the first n rows is at most n |
| PortalParse.LastSectionRow | create_portfolio_portal_v2.py:55-61 | the latest section row is a section row, and no later row before n is |
| PortalParse.FoldFailure | create_portfolio_portal.py:38-39 | the parse fails exactly when some task row has a bad INDENT (or, in v1, PRIORITY), and it names the first such row |
| PortalParse.FoldCounts | create_portfolio_portal.py:24-48 | a successful parse holds one task per task row with ids 1, 2, ...; one section per section row with ids section_0, section_1, ...; and the latest section as current_section |
| PortalParse.FoldTaskIds | create_portfolio_portal.py:33-35 | task k carries id k + 1, and there is one task per task row |
| PortalParse.FoldSectionIds | create_portfolio_portal.py:24-30 | section k is named section_k, and there is one section per section row |
| PortalParse.SectionOfRow | create_portfolio_portal_v2.py:55-61 | the k-th section row becomes section k, named section_k, with that row's stripped CONTENT as its name and its IS_COLLAPSED flag, and later rows leave it alone |
| PortalParse.FoldCurrent | create_portfolio_portal.py:40 | the section a task is filed under is the latest section row's name, or 'No Section' |
| PortalParse.CountTaskRowsMonotone | create_portfolio_portal.py:33 | task rows only accumulate, and a task row counts one more |
| PortalParse.NoNotesYet | create_portfolio_portal.py:50 | note rows read before task k exists are not among its notes |
| PortalParse.NotesOfTask | create_portfolio_portal_v2.py:94-99 | the notes of task k: the note rows read while task k was the most recent task, in order |
| PortalParse.TaskOfRow | create_portfolio_portal.py:32-56 | the i-th task row becomes task i with id i + 1, the row's fields, the latest section's name, and exactly the note rows read while it was the most recent task |
| PortalParse.PriorityV2 | create_portfolio_portal_v2.py:68-75 | in v2, the priority is int() of the column when that succeeds, and 4 otherwise |
| PortalParse.PriorityRoundTrip | create_portfolio_portal.py:38 | a PRIORITY written as an integer reads back as that integer in both versions |
| PortalParse.PriorityDefaults | create_portfolio_portal.py:38 | an empty PRIORITY is an error in v1 and 4 in v2; a missing one is 1 in v1 and 4 in v2 |
| PortalView.PersonName | create_portfolio_portal_v2.py:136-140 | the menu's person for a stripped 'responsible' value: the text before the first '(', stripped, or the whole value |
| PortalView.JsPerson | create_portfolio_portal_v2.py:1195 | the browser's person value: the text before the first '(', trimmed, or '' for no responsible |
| PortalView.PersonAgreement | create_portfolio_portal_v2.py:1195 | the browser's person value equals the menu entry Python computes for every stripped 'responsible' |
| PortalView.PersonNameSpec | create_portfolio_portal_v2.py:139 | a person name holds no '(', has no surrounding whitespace, and occurs in the value it came from |
| PortalView.PersonNameBeforeParen | create_portfolio_portal_v2.py:139 | the name is the stripped text before the first '(' when there is one |
| PortalView.DigitPrefix | create_portfolio_portal_v2.py:1191 | parseInt reads the longest run of digits at the front |
| PortalView.DigitPrefixOfDigits | create_portfolio_portal_v2.py:1191 | parseInt reads all of a string of digits |
| PortalView.JsParseInt | create_portfolio_portal_v2.py:1191 | parseInt: leading whitespace, an optional sign, then the digits there are; NaN without a digit |
| PortalView.JsParseIntRoundTrip | create_portfolio_portal_v2.py:1191 | parseInt reads back every integer Python prints |
| PortalView.StatusPasses | create_portfolio_portal_v2.py:1187-1188 | 'with-dates' needs a date or a deadline, 'no-dates' needs neither |
| PortalView.PriorityPasses | create_portfolio_portal_v2.py:1191 | 'all', or parseInt of the value equals the task's priority |
| PortalView.SearchPasses | create_portfolio_portal_v2.py:1183-1199 | the lower-cased query is empty or occurs in the lower-cased content or description |
| PortalView.Visible | create_portfolio_portal_v2.py:1185-1201 | a task passes the status, section, priority, person and search filters |
| PortalView.FilteredTasks | create_portfolio_portal_v2.py:1185-1202 | every listed task is visible and comes from the input, and every visible task is listed, with no more tasks than the input |
| PortalView.FilteredConcat | create_portfolio_portal_v2.py:1185-1202 | the filter keeps the original order: two runs of tasks give their filtered runs one after the other, and one task is kept exactly when it is visible |
| PortalView.FilteredCounts | create_portfolio_portal_v2.py:1185-1202 | a visible task is listed as often as it occurs in the input, any other task never |
| PortalView.DefaultShowsAll | create_portfolio_portal_v2.py:1185-1202 | with every menu on 'all' and an empty search, every task is listed |
| PortalView.DatesPartition | create_portfolio_portal_v2.py:1187-1188 | 'with-dates' and 'no-dates' each narrow 'all', and split what it lets through |
| PortalView.PriorityOptionSelects | create_portfolio_portal_v2.py:1191 | the menu value str(p) selects exactly the tasks of priority p |
| PortalView.LabelsV2 | create_portfolio_portal_v2.py:143-148 | v2's priority_labels: 1 is P1 (Highest) up to 4, P4 (Low) |
| PortalView.LabelsV1 | create_portfolio_portal.py:94-99 | v1's priority_labels: 4 is P1 (Highest) down to 1, P4 (Low) |
| PortalView.Label | create_portfolio_portal_v2.py:1233 | priority_labels.get(p, f"P{p}") |
| PortalView.LabelTables | create_portfolio_portal.py:94-99 | the two scripts' label tables mirror each other (p and 5 - p), and both fall back to "P{p}" |
| PortalView.OptionLine | create_portfolio_portal_v2.py:1233 | one <option> line offering str(p) with its label |
| PortalView.PriorityOptions | create_portfolio_portal_v2.py:1232-1233 | generate_priority_options: the option lines joined with newlines |
| PortalView.NoNewlineInNumber | create_portfolio_portal_v2.py:1233 | a printed number holds no newline |
| PortalView.PriorityOptionLines | create_portfolio_portal_v2.py:1232-1233 | the menu has one line per priority, in order, each offering str(p) with its label |
| PortalView.InsertDescending | create_portfolio_portal_v2.py:131 | adding a priority keeps the list strictly descending and adds exactly that value |
| PortalView.PrioritiesDescending | create_portfolio_portal_v2.py:131 | the menu's priorities are the tasks' priorities, each once, in descending order |
| TaskMatrix.Status | create_project_task_matrix.py:55-56 | the first of ACTIVE, IDEA, DONE occurring in the tags, else Unknown |
| TaskMatrix.StatusSpec | create_project_task_matrix.py:55-56 | the status is the first of ACTIVE, IDEA, DONE that the tags contain, else Unknown; missing tags give Unknown |
| TaskMatrix.TodoistSet | create_project_task_matrix.py:49 | todoist_tasks: the set of lower-cased Todoist contents |
| TaskMatrix.InTodoist | create_project_task_matrix.py:59 | some Todoist content contains the lower-cased task name or lies inside it |
| TaskMatrix.Matches | create_project_task_matrix.py:59 | the per-content test: the lower-cased task name lies inside the Todoist content or the content lies inside it |
| TaskMatrix.InTodoistCases | create_project_task_matrix.py:49-59 | a task named like a Todoist content is in Todoist; an empty content matches everything; no Todoist tasks match nothing |
| TaskMatrix.InTodoistIff | create_project_task_matrix.py:49-59 | in_todoist holds exactly when some lower-cased content contains the lower-cased name or lies inside it, and the test is symmetric |
| TaskMatrix.OtherEnd | create_project_task_matrix.py:69 | the other end of a connection: To when the task is From, else From |
| TaskMatrix.Touches | create_project_task_matrix.py:62 | task_connections selects a connection exactly when its From or its To is the task |
| TaskMatrix.Others | create_project_task_matrix.py:62-69 | a task has at most one other end per connection |
| TaskMatrix.OthersSpec | create_project_task_matrix.py:62-69 | every other end comes from a connection that touches the task |
| TaskMatrix.OthersComplete | create_project_task_matrix.py:62-69 | every connection that touches the task gives its other end |
| TaskMatrix.OthersConcat | create_project_task_matrix.py:62-69 | the other ends come in connection order: two runs of connections give their lists one after the other, and one connection gives its other end exactly when it touches the task |
| TaskMatrix.IsMajor | create_project_task_matrix.py:46 | membership in major_projects |
| TaskMatrix.ProjectsOf | create_project_task_matrix.py:70-71 | related_projects keeps only major projects from the other ends |
| TaskMatrix.PeopleOf | create_project_task_matrix.py:73-74 | related_people keeps only person labels from the other ends |
| TaskMatrix.IsPerson | create_project_task_matrix.py:73 | `other in people['Label'].values`: some row of People has that label |
| TaskMatrix.FirstPerson | create_project_task_matrix.py:76 | .iloc[0]: the person row used is the first one with that label |
| TaskMatrix.DataOf | create_project_task_matrix.py:76-87 | a People_Data entry carries the person's name |
| TaskMatrix.DataOfImage | create_project_task_matrix.py:76-87 | the entry's image is the Image of the first row with that label when it is present and not empty, else '' |
| TaskMatrix.AddOther | create_project_task_matrix.py:69-87 | one other end is appended to the projects and to the people (with its data) exactly when it is one |
| TaskMatrix.Related | create_project_task_matrix.py:64-87 | the connection loop yields the specified projects and people, with each person's data |
| TaskMatrix.RowOf | create_project_task_matrix.py:89-99 | the matrix row built from a task and its gathered lists |
| TaskMatrix.MatrixRowOf | create_project_task_matrix.py:54-99 | the row create_project_task_matrix makes for one task |
| TaskMatrix.TaskRow | create_project_task_matrix.py:54-99 | the loop body makes the specified row for a task |
| TaskMatrix.CreateProjectTaskMatrix | create_project_task_matrix.py:42-101 | there is one specified row per task, in task order |
| TaskMatrix.MajorIsNotIndependent | create_project_task_matrix.py:94 | a joined list of major projects is never the text 'Independent' |
| TaskMatrix.MajorInitial | create_project_task_matrix.py:46 | every major project's name is non-empty and does not start with 'I' |
| TaskMatrix.MatrixRowSpec | create_project_task_matrix.py:89-99 | Projects is 'Independent' exactly when there are no major projects; People names the first three or reads 'Unassigned'; Team_Size and People_Data count everyone |
| TaskMatrix.KeepLabels | create_project_task_matrix.py:116-117 | related_tasks keeps only task labels from the other ends |
| TaskMatrix.FilterCounts | create_project_task_matrix.py:68-117 | each filter keeps a value as often as it occurs among the other ends when it is a major project, a person label or a task label, and drops it otherwise |
| TaskMatrix.FiltersConcat | create_project_task_matrix.py:68-117 | the filters keep connection order: filtering two runs gives the two filtered runs one after the other |
| TaskMatrix.RelatedTasks | create_project_task_matrix.py:113-117 | the loop over a project's connections yields the specified related tasks |
| TaskMatrix.CreateProjectSummary | create_project_task_matrix.py:103-125 | there is one row per major project, in order, with the full count and the task list |
| TaskMatrix.TaskList | create_project_task_matrix.py:122 | Task_List: the first five related tasks joined with '; ', then '...' when there are more |
| TaskMatrix.TaskListSpec | create_project_task_matrix.py:122 | Task_List names all related tasks when there are at most five; otherwise it names the first five and ends with '...' |
| MatrixPage.TagsOf | create_project_task_matrix.py:442-446 | the tags of a cell: its '\|'-separated pieces, stripped, without empty ones |
| MatrixPage.PieceTags | create_project_task_matrix.py:443-446 | the inner loop: each '\|'-piece stripped and added when non-empty |
| MatrixPage.AllTags | create_project_task_matrix.py:439-446 | all_tags: the tags of every cell |
| MatrixPage.InsertSorted | create_project_task_matrix.py:446-448 | adding a tag keeps the list sorted without repeats and adds exactly that tag |
| MatrixPage.AddTags | create_project_task_matrix.py:443-446 | the inner loop adds the cell's stripped, non-empty pieces |
| MatrixPage.TagOptions | create_project_task_matrix.py:439-448 | the tag menu lists every tag of every cell, sorted, each once |
| MatrixPage.PieceTagsFrom | create_project_task_matrix.py:443-446 | every gathered tag is a stripped, non-empty piece |
| MatrixPage.TagsOfSpec | create_project_task_matrix.py:442-446 | every tag is non-empty, holds no '\|', has no surrounding whitespace, and occurs in its cell |
| MatrixPage.AllTagsFrom | create_project_task_matrix.py:440-446 | every menu option is a tag of some cell |
| MatrixPage.ChipOf | create_project_task_matrix.py:477-481 | a person's chip: with the avatar when the image is not empty, plain otherwise |
| MatrixPage.CountedAppend | create_project_task_matrix.py:477-483 | the people a row of chips stands for add up chip by chip |
| MatrixPage.PeopleChips | create_project_task_matrix.py:475-485 | a row has 'Unassigned' for nobody; otherwise one chip per person for the first three, with the avatar when there is an image, then '+n more'; the chips stand for everyone |
| MatrixPage.RowShown | create_project_task_matrix.py:519-543 | a row passes the status, Todoist and tag filters |
| MatrixPage.TodoistAttr | create_project_task_matrix.py:488 | data-todoist is `str(In_Todoist).lower()`: 'true' or 'false' |
| MatrixPage.ShownRows | create_project_task_matrix.py:519-543 | every shown row passes the filters and comes from the table, every passing row is shown, and no more rows are shown than the table has |
| MatrixPage.ShownConcat | create_project_task_matrix.py:519-543 | the filter keeps table order: two runs of rows give their shown rows one after the other, and one row is shown exactly when it passes |
| MatrixPage.ShownCounts | create_project_task_matrix.py:519-543 | a passing row is shown as often as it occurs in the table, any other row never |
| MatrixPage.AllRowsShown | create_project_task_matrix.py:519-543 | with every filter on 'all', every row is visible |
| MatrixPage.TodoistPartition | create_project_task_matrix.py:528-533 | 'in-todoist' and 'not-in-todoist' split the rows the other filters let through, by the row's flag |
| MatrixPage.StatusButtonSelects | create_project_task_matrix.py:523-525 | a status button keeps exactly the rows of that status |
| MatrixPage.TagOptionKeepsRow | create_project_task_matrix.py:536-541 | choosing one of a row's tags in the menu keeps that row |
| MatrixPage.TagSubstringExample | create_project_task_matrix.py:538 | the tag filter matches substrings: 'IDEA' keeps a row tagged only 'IDEAS' |
| Priorities.CsvPriority | verify_priorities.py:12-20 | csv_priority is 1 for an empty or non-integer PRIORITY, and otherwise its integer value |
| Priorities.IsTaskRow | verify_priorities.py:10 | only rows whose TYPE is exactly 'task' are read |
| Priorities.MentionsProject | verify_priorities.py:23 | `'@PROJECT' in content.upper()`: the content names @PROJECT in any letter case |
| Priorities.EntryOf | verify_priorities.py:11-33 | the entry for a task row: its first 50 characters, its CSV priority, the @PROJECT override and the overridden flag |
| Priorities.Entries | verify_priorities.py:9-33 | there is at most one entry per row |
| Priorities.ReadPriorities | verify_priorities.py:9-33 | the loop makes the specified entry for each task row, in row order |
| Priorities.EntrySpec | verify_priorities.py:23-33 | an entry is overridden exactly when the content mentions @PROJECT and the CSV priority is not already 4; the final priority is 4 when overridden and the CSV priority otherwise; the stored content is the first 50 characters |
| Priorities.CsvPriorityRoundTrip | verify_priorities.py:14-20 | a printed integer reads back; an empty or non-numeric value gives 1 |
| Priorities.TaskRows | verify_priorities.py:10 | these are exactly the positions of rows whose TYPE is 'task', in order |
| Priorities.EntriesSpec | verify_priorities.py:10-33 | the k-th entry is made from the k-th task row |
| Priorities.CountOverridden | verify_priorities.py:40 | the number of overridden entries |
| Priorities.Unlisted | verify_priorities.py:43-69 | the number of entries whose final priority falls in none of the four buckets |
| Priorities.InBucket | verify_priorities.py:45-46 | a bucket holds exactly the entries of its final priority |
| Priorities.BucketsPartition | verify_priorities.py:43-69 | the four buckets and the entries outside 1..4 account for every entry exactly once |
| Priorities.EntriesConsistent | verify_priorities.py:23-32 | every overridden entry has final priority 4 |
| Priorities.OverridesInTopBucket | verify_priorities.py:40-47 | the override count never exceeds the priority-4 bucket |
| Priorities.BucketLines | verify_priorities.py:53-55 | a report loop writes one line per entry of its priority, in list order |
| Priorities.BucketSplit | verify_priorities.py:53-55 | the bucket of one more entry adds at most that entry |
| Priorities.BucketAppend | verify_priorities.py:53-55 | the bucket of a list with one more entry at its end adds at most that entry |
| Priorities.WriteReport | verify_priorities.py:36-69 | the report holds the task count, the override count, and the lines of buckets 4, 3, 2 and 1, with the marker only in bucket 4 |
| Priorities.LineOf | verify_priorities.py:47-55 | one report line: two spaces, the content, and the marker when asked for and overridden |
| Priorities.MarkerSpec | verify_priorities.py:47-48 | a line ends with the marker exactly when it is in the high bucket and its entry is overridden |
| Priorities.UnlistedExample | verify_priorities.py:43-69 | a task of priority 7 is counted but appears in no bucket |
| Text.Strip | create_portfolio_portal_v2.py:53 | str.strip(): the text between the leading and the trailing whitespace |
| Text.StripStartSpec | create_portfolio_portal_v2.py:53 | lstrip removes a run of leading whitespace and stops at the first other character |
| Text.StripEndSpec | create_portfolio_portal_v2.py:53 | rstrip removes a run of trailing whitespace and stops at the last other character |
| Text.StripSpec | create_portfolio_portal_v2.py:53 | strip leaves an infix that neither starts nor ends with whitespace, and removes only whitespace |
| Text.StripOfStripped | create_portfolio_portal_v2.py:68 | a string without whitespace at either end is its own strip |
| Text.StripIdempotent | create_portfolio_portal_v2.py:136-139 | stripping twice is stripping once |
| Text.Lower | create_project_task_matrix.py:59 | str.lower() on ASCII letters |
| Text.Upper | verify_priorities.py:23 | str.upper() on ASCII letters |
| Text.Contains | create_project_task_matrix.py:56 | `sub in s` holds exactly when sub occurs at some position of s |
| Text.ShiftOccurrence | create_project_task_matrix.py:56 | occurrences after position 0 are the occurrences in the tail |
| Text.ContainsInfix | create_project_task_matrix.py:59 | every string contains its own infixes |
| Text.ContainsEmpty | create_project_task_matrix.py:59 | the empty string is in every string |
| Text.ContainsTransitive | create_portfolio_portal_v2.py:139 | an infix of an infix is an infix |
| Text.InfixLacks | create_portfolio_portal_v2.py:139 | a character missing from a string is missing from its infixes |
| Text.StripContained | create_portfolio_portal_v2.py:139 | a stripped string occurs in the original |
| Text.ParseInt | create_portfolio_portal_v2.py:73 | int(s): surrounding whitespace, an optional sign, at least one digit, else ValueError |
| Text.NatToString | create_portfolio_portal_v2.py:57 | str(n) is non-empty decimal digits without a leading zero |
| Text.IntToString | create_portfolio_portal_v2.py:1233 | str(i) is non-empty |
| Text.NatToStringValue | create_portfolio_portal_v2.py:57 | str(n)'s digits denote n |
| Text.ParseSignedRoundTrip | create_portfolio_portal_v2.py:73 | a sign and digits read back the integer printed |
| Text.ParseIntRoundTrip | create_portfolio_portal_v2.py:73 | int(str(i)) == i |
| Text.Take | verify_priorities.py:29 | s[:k] has min(len, k) elements and is a prefix of s |
| Text.Join | create_project_task_matrix.py:94 | sep.join(parts) |
| Text.JoinStartsWithFirst | create_project_task_matrix.py:94 | a join starts with its first part |
| Text.IndexOf | create_portfolio_portal_v2.py:139 | this is the first position of the character |
| Text.Split | create_portfolio_portal_v2.py:139 | split gives a non-empty list of separator-free pieces whose join is the input |
| Text.SplitOfJoin | create_portfolio_portal_v2.py:1233 | splitting a join of separator-free parts gives the parts back |
| Text.JoinContainsParts | create_project_task_matrix.py:94 | every part occurs in the join |
| Text.SplitPieceIsInfix | create_project_task_matrix.py:443 | every piece of a split occurs in the split string |
| Text.LexLess | create_project_task_matrix.py:448 | Python's string order, lexicographic by code point |
| Text.LexLessIrreflexive | create_project_task_matrix.py:448 | no string sorts before itself |
| Text.LexLessTransitive | create_project_task_matrix.py:448 | string order is transitive |
| Text.LexLessTotal | create_project_task_matrix.py:448 | any two distinct strings are ordered one way |
| Text.LexLessAsymmetric | create_project_task_matrix.py:448 | no two strings sort before each other |

## Left out

- File and CSV reading, the HTML, report and Excel writing, and the console output. Each script's input is a sequence of rows (a map from column name to text, or a record), and its output is the value it would write.
- parse_date (create_portfolio_portal_v2.py:12-39) parses ISO and other date formats and reads the wall clock for 'today'. It is a parameter of the v2 parse.
- A short CSV row, for which csv.DictReader yields None for the missing fields so `.strip()` raises. Every field of a modelled row is text.
- Case mapping covers ASCII letters only. Python's `str.lower()`/`str.upper()` and JavaScript's `toLowerCase()` map all of Unicode.
- Python's `int()` also accepts underscores between digits and non-ASCII decimal digits. These are not modelled.
- JavaScript's `trim()` uses a whitespace set slightly different from Python's `strip()`. `PortalView.JsPerson` uses the same `Strip`.
- PortalView.PersonAgreement: proved for that shared `Strip` only. `strip()` also removes U+001C–U+001F and U+0085 and `trim()` does not, while `trim()` removes U+FEFF and `strip()` does not, so a value such as "Ann\u0085(1)" gives different menu and filter names in the page.
- `parseInt` without a radix reads a leading '0x' as hexadecimal. The menu values are printed integers, which never start that way.
- buildHierarchy first sorts the tasks by id. The model takes them already in id order, which is the order parse_csv assigns ids in.
- buildHierarchy copies each task into a fresh object. The children lists are values here.
- `Tags` cells are deduplicated with `.unique()` before the tag menu is built. This does not change the set of tags.
- The matrix page sorts its rows by status and task before rendering them. The row filter is modelled over the rows in any order.
- In the matrix, a `Tags` or `Description` cell that pandas reads as NaN is modelled as missing. A NaN Todoist content (which would make `.str.lower()` yield NaN) is not modelled: contents are text.
- The timeline view, the Gantt date arithmetic, DOM toggles and HTML escaping of values are page rendering and are not modelled.
- update_portfolio.py and check_priorities.py (file moves, subprocess calls, console output) are not part of this model.
