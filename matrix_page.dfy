/**
 * The interactive page generate_html_matrix writes for the task matrix:
 * the tag menu, the person chips of a row, and the browser's applyFilters,
 * which hides the rows that the status buttons, the Todoist menu and the
 * tag menu exclude.
 */
module MatrixPage {
  import opened Sequences
  import opened Text
  import opened TaskMatrix

  /** The stripped, non-empty pieces of a list of '|'-separated pieces. */
  function PieceTags(pieces: seq<string>): set<string> {
    if pieces == [] then {}
    else
      var last := Strip(pieces[|pieces| - 1]);
      PieceTags(pieces[..|pieces| - 1]) + (if last != "" then {last} else {})
  }

  /** The tags one Tags cell contributes: none when it is blank, else its stripped non-empty '|'-pieces. */
  function TagsOf(cell: string): set<string> {
    if cell == "" || Strip(cell) == "" then {} else PieceTags(Split(cell, '|'))
  }

  /** all_tags after the given Tags cells. */
  function AllTags(cells: seq<string>): set<string> {
    if cells == [] then {} else AllTags(cells[..|cells| - 1]) + TagsOf(cells[|cells| - 1])
  }

  /** Strictly increasing in Python's string order: sorted and without repeats. */
  predicate Sorted(s: seq<string>) {
    forall a, b :: 0 <= a < b < |s| ==> LexLess(s[a], s[b])
  }

  /** The list holds exactly the strings of the set. */
  ghost predicate Lists(s: seq<string>, tags: set<string>) {
    forall x :: x in s <==> x in tags
  }

  /** Add t to a sorted list of distinct strings: the set.add followed by sorted(). */
  function InsertSorted(s: seq<string>, t: string): (r: seq<string>)
    requires Sorted(s)
    ensures Sorted(r)
    ensures forall x :: x in r <==> x in s || x == t
  {
    if s == [] then [t]
    else if t == s[0] then s
    else if LexLess(t, s[0]) then
      assert forall b :: 0 <= b < |s| ==> LexLess(t, s[b]) by {
        forall b | 0 < b < |s|
          ensures LexLess(t, s[b])
        {
          LexLessTransitive(t, s[0], s[b]);
        }
      }
      [t] + s
    else
      LexLessTotal(t, s[0]);
      var rest := InsertSorted(s[1..], t);
      assert forall k :: 0 <= k < |rest| ==> LexLess(s[0], rest[k]) by {
        forall k | 0 <= k < |rest|
          ensures LexLess(s[0], rest[k])
        {
          assert rest[k] in s[1..] || rest[k] == t;
        }
      }
      [s[0]] + rest
  }

  /** The inner loop of the tag menu: each stripped, non-empty piece is added to the tags gathered so far. */
  method AddTags(options: seq<string>, ghost before: set<string>, pieces: seq<string>) returns (options': seq<string>)
    requires Sorted(options) && Lists(options, before)
    ensures Sorted(options') && Lists(options', before + PieceTags(pieces))
  {
    options' := options;
    var j := 0;
    while j < |pieces|
      invariant 0 <= j <= |pieces|
      invariant Sorted(options') && Lists(options', before + PieceTags(pieces[..j]))
    {
      assert pieces[..j + 1][..j] == pieces[..j];
      var tag := Strip(pieces[j]);
      if tag != "" {
        options' := InsertSorted(options', tag);
      }
      j := j + 1;
    }
    assert pieces[..|pieces|] == pieces;
  }

  /**
   * The tag menu: every Tags cell that is not blank is split on '|', each
   * piece stripped, and the non-empty ones gathered; the options are those
   * tags in sorted order, each once.
   */
  method TagOptions(cells: seq<string>) returns (options: seq<string>)
    ensures Sorted(options)
    ensures Lists(options, AllTags(cells))
  {
    options := [];
    var i := 0;
    while i < |cells|
      invariant 0 <= i <= |cells|
      invariant Sorted(options) && Lists(options, AllTags(cells[..i]))
    {
      var cell := cells[i];
      assert cells[..i + 1][..i] == cells[..i];
      if cell != "" && Strip(cell) != "" {
        options := AddTags(options, AllTags(cells[..i]), Split(cell, '|'));
      }
      i := i + 1;
    }
    assert cells[..|cells|] == cells;
  }

  /** A tag drawn from some of the pieces is one of them, stripped and non-empty. */
  lemma {:induction false} PieceTagsFrom(pieces: seq<string>, t: string)
    requires t in PieceTags(pieces)
    ensures t != "" && exists k :: 0 <= k < |pieces| && Strip(pieces[k]) == t
  {
    var n := |pieces| - 1;
    if t in PieceTags(pieces[..n]) {
      PieceTagsFrom(pieces[..n], t);
      var k :| 0 <= k < n && Strip(pieces[..n][k]) == t;
      assert pieces[k] == pieces[..n][k];
    } else {
      assert Strip(pieces[n]) == t;
    }
  }

  /**
   * Every tag of a cell is non-empty, holds no '|' and no surrounding
   * whitespace, and occurs in the cell.
   */
  lemma TagsOfSpec(cell: string, t: string)
    requires t in TagsOf(cell)
    ensures t != "" && '|' !in t && Strip(t) == t
    ensures Contains(cell, t)
  {
    var pieces := Split(cell, '|');
    PieceTagsFrom(pieces, t);
    var k :| 0 <= k < |pieces| && Strip(pieces[k]) == t;
    StripIdempotent(pieces[k]);
    StripContained(pieces[k]);
    SplitPieceIsInfix(cell, '|', k);
    ContainsTransitive(cell, pieces[k], t);
  }

  /** Every option of the menu is a tag of some cell. */
  lemma {:induction false} AllTagsFrom(cells: seq<string>, t: string)
    requires t in AllTags(cells)
    ensures exists i :: 0 <= i < |cells| && t in TagsOf(cells[i])
  {
    var n := |cells| - 1;
    if t in AllTags(cells[..n]) {
      AllTagsFrom(cells[..n], t);
      var i :| 0 <= i < n && t in TagsOf(cells[..n][i]);
      assert cells[i] == cells[..n][i];
    } else {
      assert t in TagsOf(cells[n]);
    }
  }

  /** A chip of the People column. */
  datatype Chip = Avatar(name: string, image: string) | Plain(name: string) | More(count: nat) | Unassigned

  /** The number of people a row of chips stands for. */
  function Counted(chips: seq<Chip>): nat {
    if chips == [] then 0
    else
      var last := chips[|chips| - 1];
      Counted(chips[..|chips| - 1]) + (match last
        case Avatar(_, _) => 1
        case Plain(_) => 1
        case More(n) => n
        case Unassigned => 0)
  }

  /** The chip for one person: with the avatar when the image is not empty. */
  function ChipOf(p: PersonData): Chip {
    if p.image != "" then Avatar(p.name, p.image) else Plain(p.name)
  }

  /** Counted over one more chip. */
  lemma CountedAppend(chips: seq<Chip>, c: Chip)
    ensures Counted(chips + [c]) == Counted(chips) + Counted([c])
  {
    assert (chips + [c])[..|chips|] == chips;
  }

  /**
   * The People cell: 'Unassigned' for nobody; otherwise one chip for each
   * of the first three people, with the avatar when the image is set, then
   * a '+n more' chip for the rest. The chips stand for every person.
   */
  method PeopleChips(data: seq<PersonData>) returns (chips: seq<Chip>)
    ensures data == [] ==> chips == [Unassigned]
    ensures data != [] ==> |chips| == (if |data| > 3 then 4 else |data|)
    ensures data != [] ==> forall k :: 0 <= k < |chips| && k < 3 && k < |data| ==> chips[k] == ChipOf(data[k])
    ensures |data| > 3 ==> chips[3] == More(|data| - 3)
    ensures Counted(chips) == |data|
  {
    if data == [] {
      chips := [Unassigned];
      return;
    }
    var shown := Take(data, 3);
    chips := [];
    var i := 0;
    while i < |shown|
      invariant 0 <= i <= |shown| && |chips| == i
      invariant forall k :: 0 <= k < i ==> chips[k] == ChipOf(shown[k])
      invariant Counted(chips) == i
    {
      CountedAppend(chips, ChipOf(shown[i]));
      if shown[i].image != "" {
        chips := chips + [Avatar(shown[i].name, shown[i].image)];
      } else {
        chips := chips + [Plain(shown[i].name)];
      }
      i := i + 1;
    }
    if |data| > 3 {
      CountedAppend(chips, More(|data| - 3));
      chips := chips + [More(|data| - 3)];
    }
  }

  /** data-todoist: str(In_Todoist).lower(). */
  function TodoistAttr(inTodoist: bool): string {
    if inTodoist then "true" else "false"
  }

  /** applyFilters' test of one row. */
  predicate RowShown(status: string, todoist: string, tagsFilter: string, row: MatrixRow) {
    && !(status != "all" && row.status != status)
    && !(todoist == "in-todoist" && TodoistAttr(row.inTodoist) != "true")
    && !(todoist == "not-in-todoist" && TodoistAttr(row.inTodoist) == "true")
    && (tagsFilter == "all" || Contains(row.tags, tagsFilter))
  }

  /** applyFilters: the rows left visible, in table order. */
  function ShownRows(status: string, todoist: string, tagsFilter: string, rows: seq<MatrixRow>): (r: seq<MatrixRow>)
    ensures forall k :: 0 <= k < |r| ==> RowShown(status, todoist, tagsFilter, r[k]) && r[k] in rows
    ensures forall k :: 0 <= k < |rows| && RowShown(status, todoist, tagsFilter, rows[k]) ==> rows[k] in r
    ensures |r| <= |rows|
  {
    if rows == [] then []
    else (if RowShown(status, todoist, tagsFilter, rows[0]) then [rows[0]] else []) + ShownRows(status, todoist, tagsFilter, rows[1..])
  }

  /**
   * applyFilters keeps table order: two runs of rows give their shown rows
   * one after the other, and a single row is shown exactly when it passes.
   */
  lemma {:induction false} ShownConcat(status: string, todoist: string, tagsFilter: string, a: seq<MatrixRow>, b: seq<MatrixRow>)
    ensures ShownRows(status, todoist, tagsFilter, a + b) == ShownRows(status, todoist, tagsFilter, a) + ShownRows(status, todoist, tagsFilter, b)
    ensures forall row :: ShownRows(status, todoist, tagsFilter, [row]) == if RowShown(status, todoist, tagsFilter, row) then [row] else []
  {
    if a == [] {
      assert a + b == b;
    } else {
      TailOfConcat(a, b);
      ShownConcat(status, todoist, tagsFilter, a[1..], b);
      AppendAssoc(if RowShown(status, todoist, tagsFilter, a[0]) then [a[0]] else [],
        ShownRows(status, todoist, tagsFilter, a[1..]), ShownRows(status, todoist, tagsFilter, b));
    }
    forall row
      ensures ShownRows(status, todoist, tagsFilter, [row]) == if RowShown(status, todoist, tagsFilter, row) then [row] else []
    {
      assert [row][1..] == [];
    }
  }

  /** Each passing row is shown as often as it occurs in the table, and no other row is. */
  lemma {:induction false} ShownCounts(status: string, todoist: string, tagsFilter: string, rows: seq<MatrixRow>, row: MatrixRow)
    ensures multiset(ShownRows(status, todoist, tagsFilter, rows))[row] ==
      if RowShown(status, todoist, tagsFilter, row) then multiset(rows)[row] else 0
  {
    if rows != [] {
      FirstRest(rows);
      ShownCounts(status, todoist, tagsFilter, rows[1..], row);
    }
  }

  /** With everything on 'all' every row is visible. */
  lemma {:induction false} AllRowsShown(rows: seq<MatrixRow>)
    ensures ShownRows("all", "all", "all", rows) == rows
  {
    if rows != [] {
      AllRowsShown(rows[1..]);
    }
  }

  /**
   * The two Todoist choices split the rows the other filters let through:
   * each such row is shown by exactly one, 'in-todoist' keeping the rows
   * found in Todoist.
   */
  lemma TodoistPartition(status: string, tagsFilter: string, row: MatrixRow)
    ensures RowShown(status, "in-todoist", tagsFilter, row) <==> RowShown(status, "all", tagsFilter, row) && row.inTodoist
    ensures RowShown(status, "not-in-todoist", tagsFilter, row) <==> RowShown(status, "all", tagsFilter, row) && !row.inTodoist
  {
  }

  /** A status button other than 'All Tasks' keeps exactly the rows of that status. */
  lemma StatusButtonSelects(status: string, row: MatrixRow)
    requires status != "all"
    ensures RowShown(status, "all", "all", row) <==> row.status == status
  {
  }

  /**
   * Choosing a tag of a row's Tags cell in the menu keeps that row (unless
   * the tag is literally 'all', which the menu cannot tell from 'All Tags').
   */
  lemma TagOptionKeepsRow(t: string, row: MatrixRow)
    requires t in TagsOf(row.tags)
    ensures RowShown("all", "all", t, row)
  {
    TagsOfSpec(row.tags, t);
  }

  /**
   * The tag menu matches by substring: the option 'IDEA' also keeps a row
   * tagged only 'IDEAS', which does not carry it.
   */
  lemma TagSubstringExample()
    ensures "IDEA" !in TagsOf("IDEAS")
    ensures RowShown("all", "all", "IDEA", MatrixRow("t", "IDEA", "IDEAS", false, "Independent", "Unassigned", [], 0, ""))
  {
    assert Split("IDEAS", '|') == ["IDEAS"];
    assert Strip("IDEAS") == "IDEAS";
    assert PieceTags(["IDEAS"]) == {"IDEAS"} by {
      assert ["IDEAS"][..0] == [];
    }
    assert OccursAt("IDEAS", "IDEA", 0);
  }
}
