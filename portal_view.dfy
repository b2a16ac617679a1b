/**
 * The parts of create_portfolio_portal_v2.py's page that decide which tasks
 * are listed and how the filter menus read: the person name taken from a
 * task's 'responsible' field (in Python for the menu, in JavaScript for the
 * filter), the list view's getFilteredTasks predicate, and the priority
 * menu that generate_priority_options writes in both scripts.
 */
module PortalView {
  import opened Wrappers
  import opened Text
  import opened PortalParse
  import opened Sequences

  /**
   * The person shown in the menu for a non-empty, stripped 'responsible'
   * value: the text before the first '(' (the Todoist user id), stripped.
   */
  function PersonName(resp: string): string {
    if '(' in resp then Strip(Split(resp, '(')[0]) else resp
  }

  /** The browser's `task.responsible ? task.responsible.split('(')[0].trim() : ''`. */
  function JsPerson(resp: string): string {
    if resp == "" then "" else Strip(Split(resp, '(')[0])
  }

  /**
   * The menu entry Python computes and the value the filter compares it with
   * agree on every stripped 'responsible' value, so choosing a person in the
   * menu selects that person's tasks.
   */
  lemma PersonAgreement(resp: string)
    requires Strip(resp) == resp
    ensures JsPerson(resp) == PersonName(resp)
  {
    if resp != "" && '(' !in resp {
      assert Split(resp, '(') == [resp];
    }
  }

  /** A person name holds no '(' and no surrounding whitespace, and occurs in the value it came from. */
  lemma PersonNameSpec(resp: string)
    requires Strip(resp) == resp
    ensures '(' !in PersonName(resp)
    ensures Strip(PersonName(resp)) == PersonName(resp)
    ensures Contains(resp, PersonName(resp))
  {
    var r := PersonName(resp);
    if '(' in resp {
      var piece := Split(resp, '(')[0];
      SplitPieceIsInfix(resp, '(', 0);
      StripContained(piece);
      StripIdempotent(piece);
      ContainsTransitive(resp, piece, r);
      InfixLacks(piece, r, '(');
    } else {
      ContainsInfix(resp, 0, |resp|);
      assert resp[0..|resp|] == resp;
    }
  }

  /**
   * The menu name is the stripped text before the first '(' when there is
   * one, and the whole value otherwise.
   */
  lemma PersonNameBeforeParen(resp: string)
    ensures forall k :: 0 <= k < |resp| && resp[k] == '(' && '(' !in resp[..k] ==> PersonName(resp) == Strip(resp[..k])
    ensures '(' !in resp ==> PersonName(resp) == resp
  {
    if '(' in resp {
      var i := IndexOf(resp, '(');
      assert Split(resp, '(')[0] == resp[..i];
    }
  }

  /** A JavaScript value is truthy: here, a date that is present and not empty. */
  predicate Truthy(date: Option<string>) {
    date.Some? && date.value != ""
  }

  /** The longest prefix of s made of decimal digits. */
  function DigitPrefix(s: string): (r: string)
    ensures AllDigits(r) && IsPrefix(r, s)
    ensures |r| < |s| ==> !IsDigit(s[|r|])
  {
    if s != [] && IsDigit(s[0]) then [s[0]] + DigitPrefix(s[1..]) else []
  }

  /**
   * JavaScript's parseInt(s) in base 10: leading whitespace, an optional
   * sign, then as many digits as there are; NaN (None) without a digit.
   */
  function JsParseInt(s: string): Option<int> {
    var t := StripStart(s);
    var negative := t != [] && t[0] == '-';
    var body := if t != [] && (t[0] == '-' || t[0] == '+') then t[1..] else t;
    var digits := DigitPrefix(body);
    if digits == [] then None
    else
      var v: int := DigitsValue(digits);
      Some(if negative then -v else v)
  }

  lemma {:induction false} DigitPrefixOfDigits(s: string)
    requires AllDigits(s)
    ensures DigitPrefix(s) == s
  {
    if s != [] {
      DigitPrefixOfDigits(s[1..]);
    }
  }

  /** parseInt reads back every integer Python prints. */
  lemma JsParseIntRoundTrip(p: int)
    ensures JsParseInt(IntToString(p)) == Some(p)
  {
    var s := IntToString(p);
    if p < 0 {
      NatToStringValue(-p);
      DigitPrefixOfDigits(NatToString(-p));
      assert s[1..] == NatToString(-p);
    } else {
      NatToStringValue(p);
      DigitPrefixOfDigits(s);
    }
  }

  /** The values of the list view's four menus and its search box. */
  datatype Filters = Filters(status: string, section: string, priority: string, person: string, search: string)

  /** The status menu: 'with-dates' needs a date or deadline, 'no-dates' needs neither. */
  predicate StatusPasses(status: string, t: Task) {
    && !(status == "with-dates" && !Truthy(t.fields.date) && !Truthy(t.fields.deadline))
    && !(status == "no-dates" && (Truthy(t.fields.date) || Truthy(t.fields.deadline)))
  }

  /** The priority menu: 'all', or parseInt of its value equals the task's priority (NaN equals nothing). */
  predicate PriorityPasses(priority: string, t: Task) {
    priority == "all" || JsParseInt(priority) == Some(t.fields.priority)
  }

  /** The search box: the lower-cased query is empty or occurs in the lower-cased content or description. */
  predicate SearchPasses(search: string, t: Task) {
    var q := Lower(search);
    q == [] || Contains(Lower(t.fields.content), q) || Contains(Lower(t.fields.description), q)
  }

  /** getFilteredTasks' test of one task. */
  predicate Visible(f: Filters, t: Task) {
    && StatusPasses(f.status, t)
    && (f.section == "all" || t.section == f.section)
    && PriorityPasses(f.priority, t)
    && (f.person == "all" || JsPerson(t.fields.responsible) == f.person)
    && SearchPasses(f.search, t)
  }

  /** getFilteredTasks: the visible tasks, in their original order. */
  function FilteredTasks(f: Filters, tasks: seq<Task>): (r: seq<Task>)
    ensures forall k :: 0 <= k < |r| ==> Visible(f, r[k]) && r[k] in tasks
    ensures forall k :: 0 <= k < |tasks| && Visible(f, tasks[k]) ==> tasks[k] in r
    ensures |r| <= |tasks|
  {
    if tasks == [] then []
    else (if Visible(f, tasks[0]) then [tasks[0]] else []) + FilteredTasks(f, tasks[1..])
  }

  /**
   * getFilteredTasks keeps the original order: filtering two runs of tasks
   * gives the two filtered runs one after the other, and a single task is
   * kept exactly when it is visible.
   */
  lemma {:induction false} FilteredConcat(f: Filters, a: seq<Task>, b: seq<Task>)
    ensures FilteredTasks(f, a + b) == FilteredTasks(f, a) + FilteredTasks(f, b)
    ensures forall t :: FilteredTasks(f, [t]) == if Visible(f, t) then [t] else []
  {
    if a == [] {
      assert a + b == b;
    } else {
      TailOfConcat(a, b);
      FilteredConcat(f, a[1..], b);
      AppendAssoc(if Visible(f, a[0]) then [a[0]] else [], FilteredTasks(f, a[1..]), FilteredTasks(f, b));
    }
    forall t
      ensures FilteredTasks(f, [t]) == if Visible(f, t) then [t] else []
    {
      assert [t][1..] == [];
    }
  }

  /** Each visible task is listed as often as it occurs in the input, and no other task is. */
  lemma {:induction false} FilteredCounts(f: Filters, tasks: seq<Task>, t: Task)
    ensures multiset(FilteredTasks(f, tasks))[t] == if Visible(f, t) then multiset(tasks)[t] else 0
  {
    if tasks != [] {
      FirstRest(tasks);
      FilteredCounts(f, tasks[1..], t);
    }
  }

  /** With every menu on 'all' and an empty search box, every task is listed. */
  lemma DefaultShowsAll(tasks: seq<Task>)
    ensures FilteredTasks(Filters("all", "all", "all", "all", ""), tasks) == tasks
  {
    if tasks != [] {
      DefaultShowsAll(tasks[1..]);
    }
  }

  /**
   * 'with-dates' and 'no-dates' split the tasks the other filters let
   * through: each such task passes exactly one of them, and each narrows
   * 'all'.
   */
  lemma DatesPartition(f: Filters, t: Task)
    ensures Visible(f.(status := "with-dates"), t) ==> Visible(f.(status := "all"), t)
    ensures Visible(f.(status := "no-dates"), t) ==> Visible(f.(status := "all"), t)
    ensures Visible(f.(status := "all"), t) ==>
      (Visible(f.(status := "with-dates"), t) <==> !Visible(f.(status := "no-dates"), t))
  {
  }

  /** Choosing priority p in the menu, whose value is str(p), selects exactly the tasks of priority p. */
  lemma PriorityOptionSelects(p: int, t: Task)
    ensures PriorityPasses(IntToString(p), t) <==> t.fields.priority == p
  {
    JsParseIntRoundTrip(p);
    assert IntToString(p)[0] == '-' || IsDigit(IntToString(p)[0]);
  }

  /** priority_labels in create_portfolio_portal_v2.py: Todoist's p1 is priority 1. */
  function LabelsV2(): map<int, string> {
    map[1 := "P1 (Highest)", 2 := "P2 (High)", 3 := "P3 (Medium)", 4 := "P4 (Low)"]
  }

  /** priority_labels in create_portfolio_portal.py: the same labels on the reversed scale, 4 is highest. */
  function LabelsV1(): map<int, string> {
    map[4 := "P1 (Highest)", 3 := "P2 (High)", 2 := "P3 (Medium)", 1 := "P4 (Low)"]
  }

  /** priority_labels.get(p, f"P{p}") */
  function Label(labels: map<int, string>, p: int): string {
    if p in labels then labels[p] else "P" + IntToString(p)
  }

  /** The two label tables mirror each other, and both fall back to "P{p}" outside 1..4. */
  lemma LabelTables(p: int)
    ensures 1 <= p <= 4 ==> Label(LabelsV1(), p) == Label(LabelsV2(), 5 - p)
    ensures !(1 <= p <= 4) ==> Label(LabelsV1(), p) == Label(LabelsV2(), p) == "P" + IntToString(p)
  {
  }

  /** One <option> line of the priority menu. */
  function OptionLine(labels: map<int, string>, p: int): string {
    "<option value=\"" + IntToString(p) + "\">" + Label(labels, p) + "</option>"
  }

  /** generate_priority_options: the option lines, joined with newlines. */
  function PriorityOptions(priorities: seq<int>, labels: map<int, string>): string {
    Join(seq(|priorities|, i requires 0 <= i < |priorities| => OptionLine(labels, priorities[i])), "\n")
  }

  /** A decimal rendering holds no newline. */
  lemma NoNewlineInNumber(p: int)
    ensures '\n' !in IntToString(p)
  {
    var s := IntToString(p);
    if p < 0 {
      assert s[1..] == NatToString(-p);
    }
  }

  /**
   * The priority menu has one line per priority, in the order given, each
   * offering str(p) with its label; splitting the menu on newlines gives the
   * lines back, as long as no label holds a newline.
   */
  lemma PriorityOptionLines(priorities: seq<int>, labels: map<int, string>)
    requires priorities != []
    requires forall p :: p in labels ==> '\n' !in labels[p]
    ensures var lines := Split(PriorityOptions(priorities, labels), '\n');
      && |lines| == |priorities|
      && forall i :: 0 <= i < |priorities| ==> lines[i] == OptionLine(labels, priorities[i])
  {
    var parts := seq(|priorities|, i requires 0 <= i < |priorities| => OptionLine(labels, priorities[i]));
    forall i | 0 <= i < |parts|
      ensures '\n' !in parts[i]
    {
      var p := priorities[i];
      NoNewlineInNumber(p);
      assert parts[i] == "<option value=\"" + IntToString(p) + "\">" + Label(labels, p) + "</option>";
    }
    SplitOfJoin(parts, '\n');
  }

  /** Priorities in descending order without repeats. */
  predicate StrictlyDescending(ps: seq<int>) {
    forall a, b :: 0 <= a < b < |ps| ==> ps[a] > ps[b]
  }

  /** Insert p into a strictly descending list, unless it is already there. */
  function InsertDescending(ps: seq<int>, p: int): (r: seq<int>)
    requires StrictlyDescending(ps)
    ensures StrictlyDescending(r)
    ensures forall x :: x in r <==> x in ps || x == p
  {
    if ps == [] then [p]
    else if p > ps[0] then [p] + ps
    else if p == ps[0] then ps
    else
      var rest := InsertDescending(ps[1..], p);
      assert forall k :: 0 <= k < |rest| ==> rest[k] < ps[0] by {
        forall k | 0 <= k < |rest|
          ensures rest[k] < ps[0]
        {
          assert rest[k] in ps[1..] || rest[k] == p;
        }
      }
      [ps[0]] + rest
  }

  /** sorted(set(task['priority'] for task in tasks), reverse=True) */
  function PrioritiesDescending(ps: seq<int>): (r: seq<int>)
    ensures StrictlyDescending(r)
    ensures forall x :: x in r <==> x in ps
  {
    if ps == [] then [] else InsertDescending(PrioritiesDescending(ps[..|ps| - 1]), ps[|ps| - 1])
  }
}
