/**
 * build_task_hierarchy, the indent-to-tree builder that create_portfolio_portal.py
 * and create_portfolio_portal_v2.py both define (identically).
 *
 * Tasks are named by their position in the input list. The builder mutates the
 * task dicts it is given: it resets and appends to each task's 'children' list.
 * Here those lists are the array `children`, indexed by task, so which list an
 * append lands in is explicit.
 *
 * The specification of the builder is declarative. Task i gets an effective
 * depth Depth(i): 0 for the first task, and otherwise one more than the
 * previous task's depth, capped at indent - 1 (the pop loop keeps at most
 * indent - 1 open ancestors). Its parent is the most recent earlier task one
 * level shallower. The stack of open ancestors after n tasks holds, at each
 * depth d, the last task seen at depth d.
 */
module Hierarchy {
  import opened Wrappers

  /** The first n tasks all have an indent of at least 1. */
  predicate IndentsValid(indents: seq<int>, n: nat)
    requires n <= |indents|
  {
    forall j :: 0 <= j < n ==> indents[j] >= 1
  }

  function Min(a: int, b: int): int {
    if a <= b then a else b
  }

  /** The stack position (0 = bottom) task i is pushed at. */
  function Depth(indents: seq<int>, i: nat): (d: nat)
    requires i < |indents| && IndentsValid(indents, i + 1)
    ensures d < indents[i]
    ensures d == 0 <==> i == 0 || indents[i] == 1
  {
    if i == 0 then 0 else Min(Depth(indents, i - 1) + 1, indents[i] - 1)
  }

  /** The last of the first n tasks whose depth is d, if any. */
  function LastAtDepth(indents: seq<int>, n: nat, d: nat): (r: Option<nat>)
    requires n <= |indents| && IndentsValid(indents, n)
    ensures r.Some? ==> r.value < n && Depth(indents, r.value) == d
    ensures r.Some? ==> forall j :: r.value < j < n ==> Depth(indents, j) != d
    ensures r.None? ==> forall j :: 0 <= j < n ==> Depth(indents, j) != d
  {
    if n == 0 then None
    else if Depth(indents, n - 1) == d then Some(n - 1)
    else LastAtDepth(indents, n - 1, d)
  }

  /** Depths change by at most one step upwards, so every depth between two tasks' depths is taken in between. */
  lemma {:induction false} IntermediateDepth(indents: seq<int>, a: nat, b: nat, d: nat)
    requires a <= b < |indents| && IndentsValid(indents, b + 1)
    requires Depth(indents, a) <= d <= Depth(indents, b)
    ensures exists m :: a <= m <= b && Depth(indents, m) == d
  {
    if Depth(indents, b) != d {
      IntermediateDepth(indents, a, b - 1, d);
    }
  }

  /** Every depth up to the depth of task n - 1 has a last task among the first n. */
  lemma DepthReached(indents: seq<int>, n: nat, d: nat)
    requires 0 < n <= |indents| && IndentsValid(indents, n)
    requires d <= Depth(indents, n - 1)
    ensures LastAtDepth(indents, n, d).Some?
  {
    IntermediateDepth(indents, 0, n - 1, d);
  }

  /**
   * The task whose 'children' list task i is appended to: the most recent
   * earlier task one level shallower. None for the roots and for an orphan.
   */
  function Parent(indents: seq<int>, i: nat): (r: Option<nat>)
    requires i < |indents| && IndentsValid(indents, i + 1)
    ensures r.None? <==> i == 0 || indents[i] == 1
    ensures r.Some? ==> r.value < i && Depth(indents, r.value) + 1 == Depth(indents, i)
  {
    if Depth(indents, i) == 0 then None
    else
      DepthReached(indents, i, Depth(indents, i) - 1);
      LastAtDepth(indents, i, Depth(indents, i) - 1)
  }

  /** task_stack after the first n tasks: at each depth, the last task seen at that depth. */
  function OpenStack(indents: seq<int>, n: nat): (st: seq<nat>)
    requires n <= |indents| && IndentsValid(indents, n)
    ensures |st| == if n == 0 then 0 else Depth(indents, n - 1) + 1
    ensures forall d :: 0 <= d < |st| ==> LastAtDepth(indents, n, d) == Some(st[d])
  {
    if n == 0 then []
    else
      assert forall d :: 0 <= d <= Depth(indents, n - 1) ==> LastAtDepth(indents, n, d).Some? by {
        forall d | 0 <= d <= Depth(indents, n - 1) {
          DepthReached(indents, n, d);
        }
      }
      seq(Depth(indents, n - 1) + 1, d requires 0 <= d <= Depth(indents, n - 1) => LastAtDepth(indents, n, d).value)
  }

  /** One step of the builder: pop down to the task's depth, then push the task. */
  lemma StackStep(indents: seq<int>, i: nat)
    requires i < |indents| && IndentsValid(indents, i + 1)
    ensures Depth(indents, i) <= |OpenStack(indents, i)|
    ensures OpenStack(indents, i + 1) == OpenStack(indents, i)[..Depth(indents, i)] + [i]
  {
    var before, after := OpenStack(indents, i), OpenStack(indents, i + 1);
    var d := Depth(indents, i);
    forall e | 0 <= e < d
      ensures after[e] == before[e]
    {
      assert LastAtDepth(indents, i + 1, e) == LastAtDepth(indents, i, e);
    }
    assert LastAtDepth(indents, i + 1, d) == Some(i);
  }

  /**
   * After task i is processed the stack is not empty, its top is task i, it
   * holds at most indent entries, and an indent-1 task leaves exactly [i].
   */
  lemma StackAfterTask(indents: seq<int>, i: nat)
    requires i < |indents| && IndentsValid(indents, i + 1)
    ensures var st := OpenStack(indents, i + 1);
      && st != []
      && st[|st| - 1] == i
      && |st| <= indents[i]
      && (indents[i] == 1 ==> st == [i])
  {
    StackStep(indents, i);
  }

  /**
   * Every task strictly between a task and its parent is at least as deep as
   * the task: the parent was never popped before the task was attached.
   */
  lemma ParentStillOpen(indents: seq<int>, i: nat, m: nat)
    requires i < |indents| && IndentsValid(indents, i + 1)
    requires Parent(indents, i).Some? && Parent(indents, i).value < m < i
    ensures Depth(indents, m) >= Depth(indents, i)
  {
    ParentIsLast(indents, i);
    StaysAbove(indents, i, m, Depth(indents, i) - 1);
  }

  /**
   * Walking back from task i, whose depth is d + 1, depths fall by at most
   * one per task, so they stay above d until a task of depth d is met.
   */
  lemma {:induction false} StaysAbove(indents: seq<int>, i: nat, m: nat, d: nat)
    requires m < i < |indents| && IndentsValid(indents, i + 1)
    requires Depth(indents, i) == d + 1
    requires forall j :: m <= j < i ==> Depth(indents, j) != d
    ensures Depth(indents, m) > d
    decreases i - m
  {
    if m + 1 < i {
      StaysAbove(indents, i, m + 1, d);
    }
    assert Depth(indents, m + 1) <= Depth(indents, m) + 1;
  }

  /** No task between a task and its parent has the parent's depth. */
  lemma ParentIsLast(indents: seq<int>, i: nat)
    requires i < |indents| && IndentsValid(indents, i + 1) && Parent(indents, i).Some?
    ensures IndentsValid(indents, i)
    ensures forall j :: Parent(indents, i).value < j < i ==> Depth(indents, j) != Depth(indents, i) - 1
  {
    assert Parent(indents, i) == LastAtDepth(indents, i, Depth(indents, i) - 1);
  }

  /** root_tasks after the first n tasks: the indent-1 tasks, in input order. */
  function RootsUpTo(indents: seq<int>, n: nat): (r: seq<nat>)
    requires n <= |indents|
    ensures forall k :: 0 <= k < |r| ==> r[k] < n && indents[r[k]] == 1
    ensures forall j :: 0 <= j < n && indents[j] == 1 ==> j in r
    ensures forall a, b :: 0 <= a < b < |r| ==> r[a] < r[b]
  {
    if n == 0 then [] else RootsUpTo(indents, n - 1) + (if indents[n - 1] == 1 then [n - 1] else [])
  }

  /** The parents of the first n tasks. */
  function ParentsUpTo(indents: seq<int>, n: nat): (par: seq<Option<nat>>)
    requires n <= |indents| && IndentsValid(indents, n)
    ensures |par| == n
  {
    seq(n, j requires 0 <= j < n => Parent(indents, j))
  }

  /** r lists, in increasing order, exactly the positions of par that hold Some(p). */
  ghost predicate ListsChildren(par: seq<Option<nat>>, p: nat, r: seq<nat>) {
    && (forall k :: 0 <= k < |r| ==> r[k] < |par| && par[r[k]] == Some(p))
    && (forall j :: 0 <= j < |par| && par[j] == Some(p) ==> j in r)
    && (forall a, b :: 0 <= a < b < |r| ==> r[a] < r[b])
  }

  /** One more entry in par extends the list of positions holding Some(p) by at most that entry. */
  lemma ListsChildrenExtend(par: seq<Option<nat>>, x: Option<nat>, p: nat, r: seq<nat>)
    requires ListsChildren(par, p, r)
    ensures ListsChildren(par + [x], p, r + (if x == Some(p) then [|par|] else []))
  {
    var par', r' := par + [x], r + (if x == Some(p) then [|par|] else []);
    forall k | 0 <= k < |r'|
      ensures r'[k] < |par'| && par'[r'[k]] == Some(p)
    {
      if k < |r| {
        assert r'[k] == r[k];
      }
    }
    forall j | 0 <= j < |par'| && par'[j] == Some(p)
      ensures j in r'
    {
      if j < |par| {
        assert par[j] == Some(p);
        assert j in r;
      } else {
        assert r'[|r'| - 1] == j;
      }
    }
    forall a, b | 0 <= a < b < |r'|
      ensures r'[a] < r'[b]
    {
      assert r'[a] == r[a];
      if b < |r| {
        assert r'[b] == r[b];
      }
    }
  }

  /** Task p's 'children' list after the first n tasks: task n - 1 is appended when its parent is p. */
  function ChildrenUpTo(indents: seq<int>, n: nat, p: nat): seq<nat>
    requires n <= |indents| && IndentsValid(indents, n)
  {
    if n == 0 then []
    else
      assert IndentsValid(indents, n - 1);
      ChildrenUpTo(indents, n - 1, p) + (if Parent(indents, n - 1) == Some(p) then [n - 1] else [])
  }

  /** Task p's 'children' list holds exactly the tasks whose parent is p, in input order. */
  lemma {:induction false} ChildrenUpToSpec(indents: seq<int>, n: nat, p: nat)
    requires n <= |indents| && IndentsValid(indents, n)
    ensures ListsChildren(ParentsUpTo(indents, n), p, ChildrenUpTo(indents, n, p))
  {
    if n > 0 {
      assert IndentsValid(indents, n - 1);
      ChildrenUpToSpec(indents, n - 1, p);
      ListsChildrenExtend(ParentsUpTo(indents, n - 1), Parent(indents, n - 1), p, ChildrenUpTo(indents, n - 1, p));
      ParentsStep(indents, n);
    }
  }

  /** The parents of the first n tasks are those of the first n - 1 and task n - 1's. */
  lemma ParentsStep(indents: seq<int>, n: nat)
    requires 0 < n <= |indents| && IndentsValid(indents, n)
    ensures IndentsValid(indents, n - 1)
    ensures ParentsUpTo(indents, n) == ParentsUpTo(indents, n - 1) + [Parent(indents, n - 1)]
  {
    assert IndentsValid(indents, n - 1);
    var a, b := ParentsUpTo(indents, n), ParentsUpTo(indents, n - 1) + [Parent(indents, n - 1)];
    forall j | 0 <= j < n
      ensures a[j] == b[j]
    {
      if j < n - 1 {
        assert b[j] == ParentsUpTo(indents, n - 1)[j];
      }
    }
  }

  /** Task j is in task p's 'children' list after the first n tasks exactly when p is its parent. */
  lemma InChildList(indents: seq<int>, n: nat, p: nat, j: nat)
    requires j < n <= |indents| && IndentsValid(indents, n)
    ensures j in ChildrenUpTo(indents, n, p) <==> Parent(indents, j) == Some(p)
  {
    ChildrenUpToSpec(indents, n, p);
    assert ParentsUpTo(indents, n)[j] == Parent(indents, j);
  }

  /** Every task's 'children' list after the first n tasks, for the first n tasks. */
  function ChildLists(indents: seq<int>, n: nat): (lists: seq<seq<nat>>)
    requires n <= |indents| && IndentsValid(indents, n)
    ensures |lists| == n
  {
    seq(n, p requires 0 <= p < n => ChildrenUpTo(indents, n, p))
  }

  /** A task has no children among the tasks up to and including itself. */
  lemma {:induction false} NoChildrenYet(indents: seq<int>, n: nat, p: nat)
    requires n <= |indents| && IndentsValid(indents, n) && n <= p + 1
    ensures ChildrenUpTo(indents, n, p) == []
  {
    if n > 0 {
      assert IndentsValid(indents, n - 1);
      NoChildrenYet(indents, n - 1, p);
    }
  }

  /** Resetting task i's list, then appending task i to its parent's list (if it has one), extends ChildLists(i) to ChildLists(i + 1). */
  lemma ChildrenStep(indents: seq<int>, i: nat, lists: seq<seq<nat>>, lists': seq<seq<nat>>)
    requires i < |indents| == |lists| == |lists'| && IndentsValid(indents, i + 1)
    requires lists[..i] == ChildLists(indents, i) && lists[i] == []
    requires Parent(indents, i).None? ==> lists' == lists
    requires Parent(indents, i).Some? ==>
      var q := Parent(indents, i).value; lists' == lists[q := lists[q] + [i]]
    ensures lists'[..i + 1] == ChildLists(indents, i + 1)
    ensures lists'[i + 1..] == lists[i + 1..]
  {
    var want := ChildLists(indents, i + 1);
    forall p | 0 <= p <= i
      ensures lists'[p] == want[p]
    {
      if p == i {
        NoChildrenYet(indents, i + 1, i);
      } else {
        assert lists[p] == ChildLists(indents, i)[p];
      }
    }
  }

  /**
   * Task i hangs under a root by 'children' links, so the returned forest
   * reaches it.
   */
  predicate InForest(indents: seq<int>, i: nat)
    requires i < |indents| && IndentsValid(indents, i + 1)
    decreases i
  {
    || indents[i] == 1
    || (Parent(indents, i).Some? && InForest(indents, Parent(indents, i).value))
  }

  /**
   * A task is in the forest exactly when some task up to it has indent 1: a
   * leading run of deeper tasks hangs under the orphan task 0 and is lost
   * with it, and everything from the first indent-1 task on is kept.
   */
  lemma {:induction false} InForestIff(indents: seq<int>, i: nat)
    requires i < |indents| && IndentsValid(indents, i + 1)
    ensures InForest(indents, i) <==> exists j :: 0 <= j <= i && indents[j] == 1
  {
    if indents[i] != 1 && Parent(indents, i).Some? {
      var q := Parent(indents, i).value;
      InForestIff(indents, q);
      if j :| 0 <= j <= i && indents[j] == 1 {
        if q < j {
          ParentStillOpen(indents, i, j);
          assert false;
        }
      }
    }
  }

  /** Task d hangs under task a: following parents from d reaches a (d == a included). */
  predicate InSubtree(indents: seq<int>, d: nat, a: nat)
    requires d < |indents| && IndentsValid(indents, d + 1)
    decreases d
  {
    || d == a
    || (Parent(indents, d).Some? && InSubtree(indents, Parent(indents, d).value, a))
  }

  /** Every task after a, up to one hanging under a, is deeper than a. */
  lemma {:induction false} SubtreeDeeper(indents: seq<int>, d: nat, a: nat, m: nat)
    requires d < |indents| && IndentsValid(indents, d + 1)
    requires InSubtree(indents, d, a) && a < m <= d
    ensures Depth(indents, m) > Depth(indents, a)
    decreases d
  {
    var p := Parent(indents, d).value;
    assert IndentsValid(indents, p + 1);
    if p != a {
      SubtreeAfterRoot(indents, p, a);
      SubtreeDeeper(indents, p, a, p);
    }
    if m <= p {
      SubtreeDeeper(indents, p, a, m);
    } else if m < d {
      ParentStillOpen(indents, d, m);
    }
  }

  /** A task hanging under a comes no earlier than a. */
  lemma {:induction false} SubtreeAfterRoot(indents: seq<int>, d: nat, a: nat)
    requires d < |indents| && IndentsValid(indents, d + 1)
    requires InSubtree(indents, d, a)
    ensures a <= d
    decreases d
  {
    if d != a {
      var p := Parent(indents, d).value;
      assert IndentsValid(indents, p + 1);
      SubtreeAfterRoot(indents, p, a);
    }
  }

  /**
   * Order preservation: a pre-order walk of the forest meets the tasks in
   * input order. Task a and everything hanging under it lie between a and
   * a's next sibling b (a later task with the same parent, or both without
   * one).
   */
  lemma SubtreeBeforeSibling(indents: seq<int>, a: nat, b: nat, d: nat)
    requires IndentsValid(indents, |indents|)
    requires a < b < |indents| && d < |indents|
    requires Parent(indents, a) == Parent(indents, b)
    requires InSubtree(indents, d, a)
    ensures a <= d < b
  {
    SubtreeAfterRoot(indents, d, a);
    if b <= d {
      SubtreeDeeper(indents, d, a, b);
      assert false;
    }
  }

  /**
   * Where each of the first n tasks ends up. It is in root_tasks or in some
   * 'children' list unless it is the orphan task 0 (indent > 1, empty stack);
   * it is never in two places; and it is in root_tasks exactly when its
   * indent is 1.
   */
  lemma Placement(indents: seq<int>, n: nat, j: nat)
    requires j < n <= |indents| && IndentsValid(indents, n)
    ensures var lists := ChildLists(indents, n);
      (j in RootsUpTo(indents, n) || exists p :: 0 <= p < n && j in lists[p])
      <==> !(j == 0 && indents[0] > 1)
    ensures j in RootsUpTo(indents, n) <==> indents[j] == 1
    ensures var lists := ChildLists(indents, n);
      j in RootsUpTo(indents, n) ==> forall p :: 0 <= p < n ==> j !in lists[p]
    ensures var lists := ChildLists(indents, n);
      forall p, p' :: 0 <= p < n && 0 <= p' < n && j in lists[p] && j in lists[p'] ==> p == p'
  {
    var lists := ChildLists(indents, n);
    forall p | 0 <= p < n
      ensures j in lists[p] <==> Parent(indents, j) == Some(p)
    {
      InChildList(indents, n, p, j);
    }
    if Parent(indents, j).Some? {
      assert j in lists[Parent(indents, j).value];
    }
  }

  /** A task indented deeper than the task before it becomes that task's child, however big the gap. */
  lemma DeeperIndentIsChild(indents: seq<int>, i: nat)
    requires 0 < i < |indents| && IndentsValid(indents, i + 1)
    requires indents[i] > indents[i - 1]
    ensures Parent(indents, i) == Some(i - 1)
  {
    assert Depth(indents, i) == Depth(indents, i - 1) + 1;
  }

  /** Depths and parents for indents [1, 3, 3]. */
  lemma GapParents()
    ensures Depth([1, 3, 3], 1) == 1 && Depth([1, 3, 3], 2) == 2
    ensures Parent([1, 3, 3], 1) == Some(0) && Parent([1, 3, 3], 2) == Some(1)
  {
    var ind := [1, 3, 3];
    assert Depth(ind, 1) == 1;
    assert LastAtDepth(ind, 1, 0) == Some(0);
    assert LastAtDepth(ind, 2, 1) == Some(1);
  }

  /** Indents [1, 3, 3]: the gap makes a chain, the second indent-3 task a child of the first. */
  lemma GapExample()
    ensures RootsUpTo([1, 3, 3], 3) == [0]
    ensures ChildLists([1, 3, 3], 3) == [[1], [2], []]
  {
    var ind := [1, 3, 3];
    GapParents();
    assert ChildrenUpTo(ind, 1, 0) == [];
    assert ChildrenUpTo(ind, 2, 0) == [1];
    assert ChildrenUpTo(ind, 3, 0) == [1];
    NoChildrenYet(ind, 2, 1);
    assert ChildrenUpTo(ind, 3, 1) == [2];
    NoChildrenYet(ind, 3, 2);
  }

  /** Depths and parents for indents [1, 2, 3, 2, 3]. */
  lemma ReopenParents()
    ensures Parent([1, 2, 3, 2, 3], 1) == Some(0) && Parent([1, 2, 3, 2, 3], 2) == Some(1)
    ensures Parent([1, 2, 3, 2, 3], 3) == Some(0) && Parent([1, 2, 3, 2, 3], 4) == Some(3)
  {
    var ind := [1, 2, 3, 2, 3];
    assert Depth(ind, 1) == 1 && Depth(ind, 2) == 2 && Depth(ind, 3) == 1 && Depth(ind, 4) == 2;
    assert LastAtDepth(ind, 1, 0) == Some(0);
    assert LastAtDepth(ind, 2, 1) == Some(1);
    assert LastAtDepth(ind, 3, 0) == Some(0);
    assert LastAtDepth(ind, 4, 1) == Some(3);
  }

  /** Indents [1, 2, 3, 2, 3]: the two indent-2 tasks are the children of task 0. */
  lemma ReopenRootChildren()
    ensures ChildrenUpTo([1, 2, 3, 2, 3], 5, 0) == [1, 3]
  {
    var ind := [1, 2, 3, 2, 3];
    ReopenParents();
    assert ChildrenUpTo(ind, 2, 0) == [1];
    assert ChildrenUpTo(ind, 3, 0) == [1];
    assert ChildrenUpTo(ind, 4, 0) == [1, 3];
  }

  /** Indents [1, 2, 3, 2, 3]: each indent-3 task is the child of the indent-2 task open at the time. */
  lemma ReopenInnerChildren()
    ensures ChildrenUpTo([1, 2, 3, 2, 3], 5, 1) == [2]
    ensures ChildrenUpTo([1, 2, 3, 2, 3], 5, 3) == [4]
  {
    var ind := [1, 2, 3, 2, 3];
    ReopenParents();
    NoChildrenYet(ind, 2, 1);
    assert ChildrenUpTo(ind, 3, 1) == [2];
    assert ChildrenUpTo(ind, 4, 1) == [2];
    NoChildrenYet(ind, 4, 3);
  }

  /** When only task 0 has indent 1, it is the only root. */
  lemma {:induction false} SingleRoot(indents: seq<int>, n: nat)
    requires 0 < n <= |indents| && indents[0] == 1
    requires forall j :: 0 < j < n ==> indents[j] != 1
    ensures RootsUpTo(indents, n) == [0]
  {
    if n > 1 {
      SingleRoot(indents, n - 1);
    }
  }

  /** Indents [1, 2, 3, 2, 3]: task 0 is the only root. */
  lemma ReopenRoots()
    ensures RootsUpTo([1, 2, 3, 2, 3], 5) == [0]
  {
    SingleRoot([1, 2, 3, 2, 3], 5);
  }

  /**
   * Indents [1, 2, 3, 2, 3]: the second indent-2 task closes the first one's
   * branch, so the last task hangs under it and not under task 1.
   */
  lemma ReopenExample()
    ensures ChildLists([1, 2, 3, 2, 3], 5) == [[1, 3], [2], [], [4], []]
  {
    var ind := [1, 2, 3, 2, 3];
    ReopenRootChildren();
    ReopenInnerChildren();
    ReopenParents();
    NoChildrenYet(ind, 3, 2);
    assert ChildrenUpTo(ind, 5, 2) == [] by {
      assert ChildrenUpTo(ind, 4, 2) == [];
    }
    NoChildrenYet(ind, 5, 4);
    var lists := ChildLists(ind, 5);
    assert lists[0] == [1, 3] && lists[1] == [2] && lists[2] == [] && lists[3] == [4] && lists[4] == [];
  }

  /** Indents [3, 3]: task 0 is an orphan, so neither task reaches the forest. */
  lemma OrphanExample()
    ensures RootsUpTo([3, 3], 2) == []
    ensures ChildLists([3, 3], 2) == [[1], []]
    ensures !InForest([3, 3], 0) && !InForest([3, 3], 1)
  {
    var ind := [3, 3];
    assert Parent(ind, 1) == Some(0);
    assert ChildrenUpTo(ind, 2, 0) == [1];
    NoChildrenYet(ind, 2, 1);
  }

  /** With no parents at all, no task gets a child. */
  lemma {:induction false} NoParentsNoChildren(indents: seq<int>, n: nat, p: nat)
    requires n <= |indents| && IndentsValid(indents, n)
    requires forall j :: 0 <= j < n ==> indents[j] == 1
    ensures ChildrenUpTo(indents, n, p) == []
  {
    if n > 0 {
      NoParentsNoChildren(indents, n - 1, p);
    }
  }

  /** All-indent-1 input: every task is a root, in input order. */
  lemma {:induction false} FlatRoots(indents: seq<int>, n: nat)
    requires n <= |indents|
    requires forall j :: 0 <= j < n ==> indents[j] == 1
    ensures |RootsUpTo(indents, n)| == n
    ensures forall k :: 0 <= k < n ==> RootsUpTo(indents, n)[k] == k
  {
    if n > 0 {
      FlatRoots(indents, n - 1);
      var prev, r := RootsUpTo(indents, n - 1), RootsUpTo(indents, n);
      assert r == prev + [n - 1];
      forall k | 0 <= k < n
        ensures r[k] == k
      {
        if k < n - 1 {
          assert r[k] == prev[k];
        }
      }
    }
  }


  /** All-indent-1 input: every task is a root, in input order, and every 'children' list is empty. */
  lemma FlatInput(indents: seq<int>, n: nat)
    requires n <= |indents|
    requires forall j :: 0 <= j < n ==> indents[j] == 1
    ensures RootsUpTo(indents, n) == seq(n, j => j)
    ensures forall p :: 0 <= p < n ==> ChildLists(indents, n)[p] == []
  {
    FlatRoots(indents, n);
    assert RootsUpTo(indents, n) == seq(n, j => j);
    forall p | 0 <= p < n
      ensures ChildLists(indents, n)[p] == []
    {
      NoParentsNoChildren(indents, n, p);
    }
  }

  /**
   * The pop loop of build_task_hierarchy: `while len(task_stack) >= indent:
   * task_stack.pop()`. It leaves at most indent - 1 entries; for indent < 1 it
   * empties the stack and the next pop() raises IndexError (ok is false).
   */
  method PopClosed(stack: seq<nat>, indent: int) returns (popped: seq<nat>, ok: bool)
    ensures ok <==> indent >= 1
    ensures ok ==> popped == stack[..Min(|stack|, indent - 1)]
  {
    popped := stack;
    while |popped| >= indent
      invariant |popped| <= |stack| && popped == stack[..|popped|]
      invariant |popped| < |stack| ==> |popped| >= indent - 1
    {
      if popped == [] {
        return popped, false;
      }
      popped := popped[..|popped| - 1];
    }
    ok := true;
  }

  /**
   * The builder's state after the first n tasks: the open-ancestor stack, the
   * roots, and the first n tasks' 'children' lists.
   */
  ghost predicate Built(indents: seq<int>, n: nat, stack: seq<nat>, roots: seq<nat>, lists: seq<seq<nat>>)
    requires n <= |indents|
  {
    && IndentsValid(indents, n)
    && stack == OpenStack(indents, n)
    && roots == RootsUpTo(indents, n)
    && n <= |lists|
    && lists[..n] == ChildLists(indents, n)
  }

  /**
   * One task of build_task_hierarchy, on a valid indent: after its 'children'
   * list is reset and the stack is popped to indent - 1 entries, an indent-1
   * task is a root and a deeper one is appended to the stack top's list, if
   * there is a stack top; either way it is pushed.
   */
  lemma TaskStep(indents: seq<int>, i: nat, stack: seq<nat>, roots: seq<nat>, lists: seq<seq<nat>>)
    requires i < |indents| == |lists| && indents[i] >= 1
    requires Built(indents, i, stack, roots, lists) && lists[i] == []
    ensures var popped := stack[..Min(|stack|, indents[i] - 1)];
      && (indents[i] == 1 ==> popped == [] && Built(indents, i + 1, [i], roots + [i], lists))
      && (indents[i] != 1 && popped == [] ==> Built(indents, i + 1, [i], roots, lists))
      && (indents[i] != 1 && popped != [] ==>
            var top := popped[|popped| - 1];
            Built(indents, i + 1, popped + [i], roots, lists[top := lists[top] + [i]]))
  {
    StackStep(indents, i);
    var popped := stack[..Min(|stack|, indents[i] - 1)];
    assert popped == stack[..Depth(indents, i)];
    if indents[i] != 1 && popped != [] {
      var top := popped[|popped| - 1];
      assert Parent(indents, i) == Some(top);
      ChildrenStep(indents, i, lists, lists[top := lists[top] + [i]]);
    } else {
      ChildrenStep(indents, i, lists, lists);
    }
  }

  /**
   * One iteration of build_task_hierarchy's loop, for task i. ok is false
   * when pop() is called on the empty stack (indent < 1); then only task i's
   * list has been reset.
   */
  method ProcessTask(indents: seq<int>, i: nat, children: array<seq<nat>>, stack: seq<nat>, roots: seq<nat>)
    returns (stack': seq<nat>, roots': seq<nat>, ok: bool)
    requires i < |indents| == children.Length
    requires Built(indents, i, stack, roots, children[..])
    modifies children
    ensures ok <==> indents[i] >= 1
    ensures ok ==> Built(indents, i + 1, stack', roots', children[..])
    ensures !ok ==> roots' == roots
    ensures !ok ==> children[..i] == old(children[..i])
    ensures !ok ==> children[i] == []
    ensures children[i + 1..] == old(children[i + 1..])
  {
    children[i] := [];
    var indent := indents[i];
    ghost var lists := children[..];
    roots' := roots;
    stack', ok := PopClosed(stack, indent);
    if !ok {
      return;
    }
    TaskStep(indents, i, stack, roots, lists);
    if indent == 1 {
      roots' := roots + [i];
      stack' := [i];
    } else {
      if stack' != [] {
        var parent := stack'[|stack'| - 1];
        children[parent] := children[parent] + [i];
      }
      stack' := stack' + [i];
    }
  }

  /**
   * build_task_hierarchy. children[i] is task i's 'children' list; the result
   * `roots` is root_tasks. A task with indent < 1 keeps the pop loop going
   * until pop() is called on an empty list, which raises IndexError: crashedAt
   * names that task, and the lists hold what was built up to it.
   */
  method BuildTaskHierarchy(indents: seq<int>, children: array<seq<nat>>) returns (roots: seq<nat>, crashedAt: Option<nat>)
    requires children.Length == |indents|
    modifies children
    ensures crashedAt.None? <==> IndentsValid(indents, |indents|)
    ensures crashedAt.None? ==> roots == RootsUpTo(indents, |indents|)
    ensures crashedAt.None? ==> children[..] == ChildLists(indents, |indents|)
    ensures crashedAt.Some? ==> crashedAt.value < |indents| && indents[crashedAt.value] < 1 && IndentsValid(indents, crashedAt.value)
    ensures crashedAt.Some? ==> roots == RootsUpTo(indents, crashedAt.value)
    ensures crashedAt.Some? ==> children[..crashedAt.value] == ChildLists(indents, crashedAt.value)
    ensures crashedAt.Some? ==> children[crashedAt.value] == []
    ensures crashedAt.Some? ==> children[crashedAt.value + 1..] == old(children[..])[crashedAt.value + 1..]
  {
    roots := [];
    var stack: seq<nat> := [];
    var i := 0;
    while i < |indents|
      invariant 0 <= i <= |indents|
      invariant Built(indents, i, stack, roots, children[..])
      invariant children[i..] == old(children[..])[i..]
    {
      var ok;
      stack, roots, ok := ProcessTask(indents, i, children, stack, roots);
      if !ok {
        crashedAt := Some(i);
        return;
      }
      i := i + 1;
    }
    crashedAt := None;
  }

  /**
   * Building twice over the same tasks: the first step of each pass resets a
   * task's 'children' list, so the second pass gives the same forest.
   */
  method BuildTwice(indents: seq<int>, children: array<seq<nat>>)
    returns (first: seq<nat>, firstLists: seq<seq<nat>>, second: seq<nat>)
    requires children.Length == |indents| && IndentsValid(indents, |indents|)
    modifies children
    ensures second == first
    ensures children[..] == firstLists
  {
    var crashed;
    first, crashed := BuildTaskHierarchy(indents, children);
    firstLists := children[..];
    second, crashed := BuildTaskHierarchy(indents, children);
  }
}
