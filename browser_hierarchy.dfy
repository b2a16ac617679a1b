/**
 * buildHierarchy, the JavaScript tree builder embedded in the page that
 * create_portfolio_portal_v2.py writes. It walks the tasks in id order and
 * keeps lastAtLevel, a map from an indent to the last task seen at that
 * indent, which is overwritten but never cleared. A task whose indent is 1,
 * or whose indent - 1 has no entry yet, becomes a root; any other task is
 * pushed onto the children of lastAtLevel[indent - 1].
 *
 * Tasks are named by their position in id order; the result is the list of
 * roots and, for each task, the list of its children (the fresh copies the
 * function makes are values here).
 */
module BrowserHierarchy {
  import opened Wrappers
  import Hierarchy

  /** The last of the first n tasks whose indent is k: lastAtLevel[k] after n tasks. */
  function LastWithIndent(indents: seq<int>, n: nat, k: int): (r: Option<nat>)
    requires n <= |indents|
    ensures r.Some? ==> r.value < n && indents[r.value] == k
    ensures r.Some? ==> forall j :: r.value < j < n ==> indents[j] != k
    ensures r.None? ==> forall j :: 0 <= j < n ==> indents[j] != k
  {
    if n == 0 then None
    else if indents[n - 1] == k then Some(n - 1)
    else LastWithIndent(indents, n - 1, k)
  }

  /** The task whose children task i is pushed onto; None makes task i a root. */
  function JsParent(indents: seq<int>, i: nat): (r: Option<nat>)
    requires i < |indents|
    ensures r.Some? ==> r.value < i && indents[r.value] == indents[i] - 1 && indents[i] != 1
  {
    if indents[i] == 1 then None else LastWithIndent(indents, i, indents[i] - 1)
  }

  /** roots after the first n tasks: the tasks without a parent, in id order. */
  function JsRoots(indents: seq<int>, n: nat): (r: seq<nat>)
    requires n <= |indents|
    ensures forall k :: 0 <= k < |r| ==> r[k] < n && JsParent(indents, r[k]).None?
    ensures forall j :: 0 <= j < n && JsParent(indents, j).None? ==> j in r
    ensures forall a, b :: 0 <= a < b < |r| ==> r[a] < r[b]
  {
    if n == 0 then []
    else JsRoots(indents, n - 1) + (if JsParent(indents, n - 1).None? then [n - 1] else [])
  }

  /** Task p's children after the first n tasks, in id order. */
  function JsChildren(indents: seq<int>, n: nat, p: nat): (r: seq<nat>)
    requires n <= |indents|
    ensures forall k :: 0 <= k < |r| ==> r[k] < n && JsParent(indents, r[k]) == Some(p)
    ensures forall j :: 0 <= j < n && JsParent(indents, j) == Some(p) ==> j in r
    ensures forall a, b :: 0 <= a < b < |r| ==> r[a] < r[b]
  {
    if n == 0 then []
    else JsChildren(indents, n - 1, p) + (if JsParent(indents, n - 1) == Some(p) then [n - 1] else [])
  }

  /** Every task's children list after all tasks. */
  function JsChildLists(indents: seq<int>): (lists: seq<seq<nat>>)
    ensures |lists| == |indents|
  {
    seq(|indents|, p requires 0 <= p < |indents| => JsChildren(indents, |indents|, p))
  }

  /** lastAtLevel after the first n tasks maps each indent seen to the last task with it. */
  ghost predicate LevelsAfter(indents: seq<int>, n: nat, lastAtLevel: map<int, nat>)
    requires n <= |indents|
  {
    forall k :: (k in lastAtLevel <==> LastWithIndent(indents, n, k).Some?)
      && (k in lastAtLevel ==> lastAtLevel[k] == LastWithIndent(indents, n, k).value)
  }

  /** The builder's state after the first n tasks. */
  ghost predicate Built(indents: seq<int>, n: nat, lastAtLevel: map<int, nat>, roots: seq<nat>, children: seq<seq<nat>>)
    requires n <= |indents|
  {
    && LevelsAfter(indents, n, lastAtLevel)
    && roots == JsRoots(indents, n)
    && |children| == |indents|
    && forall p :: 0 <= p < |indents| ==> children[p] == JsChildren(indents, n, p)
  }

  /**
   * One task of buildHierarchy: its parent is read from lastAtLevel, it is
   * added to the roots or to the parent's children, and lastAtLevel[indent]
   * is overwritten.
   */
  lemma Step(indents: seq<int>, i: nat, lastAtLevel: map<int, nat>, roots: seq<nat>, children: seq<seq<nat>>)
    requires i < |indents| && Built(indents, i, lastAtLevel, roots, children)
    ensures JsParent(indents, i) ==
      if indents[i] == 1 || indents[i] - 1 !in lastAtLevel then None else Some(lastAtLevel[indents[i] - 1])
    ensures JsParent(indents, i).None? ==>
      Built(indents, i + 1, lastAtLevel[indents[i] := i], roots + [i], children)
    ensures JsParent(indents, i).Some? ==>
      var q := JsParent(indents, i).value;
      Built(indents, i + 1, lastAtLevel[indents[i] := i], roots, children[q := children[q] + [i]])
  {
    var k := indents[i];
    var m := lastAtLevel[k := i];
    forall l
      ensures (l in m <==> LastWithIndent(indents, i + 1, l).Some?)
        && (l in m ==> m[l] == LastWithIndent(indents, i + 1, l).value)
    {
      if l != k {
        assert LastWithIndent(indents, i + 1, l) == LastWithIndent(indents, i, l);
      }
    }
  }

  /** One task of buildHierarchy's forEach. */
  method Place(indents: seq<int>, i: nat, lastAtLevel: map<int, nat>, roots: seq<nat>, children: seq<seq<nat>>)
    returns (lastAtLevel': map<int, nat>, roots': seq<nat>, children': seq<seq<nat>>)
    requires i < |indents| && Built(indents, i, lastAtLevel, roots, children)
    ensures Built(indents, i + 1, lastAtLevel', roots', children')
  {
    Step(indents, i, lastAtLevel, roots, children);
    roots', children' := roots, children;
    var indent := indents[i];
    if indent == 1 {
      roots' := roots + [i];
    } else if indent - 1 in lastAtLevel {
      var parent := lastAtLevel[indent - 1];
      children' := children[parent := children[parent] + [i]];
    } else {
      roots' := roots + [i];
    }
    lastAtLevel' := lastAtLevel[indent := i];
  }

  /** buildHierarchy over the tasks in id order. */
  method BuildHierarchy(indents: seq<int>) returns (roots: seq<nat>, children: seq<seq<nat>>)
    ensures roots == JsRoots(indents, |indents|)
    ensures children == JsChildLists(indents)
  {
    children := seq(|indents|, _ => []);
    roots := [];
    var lastAtLevel: map<int, nat> := map[];
    Start(indents);
    var i := 0;
    while i < |indents|
      invariant 0 <= i <= |indents|
      invariant Built(indents, i, lastAtLevel, roots, children)
    {
      lastAtLevel, roots, children := Place(indents, i, lastAtLevel, roots, children);
      i := i + 1;
    }
    Finish(indents, children);
  }

  /** Before the first task: no levels, no roots, every children list empty. */
  lemma Start(indents: seq<int>)
    ensures Built(indents, 0, map[], [], seq(|indents|, _ => []))
  {
  }

  /** After the last task the children lists are JsChildLists. */
  lemma Finish(indents: seq<int>, children: seq<seq<nat>>)
    requires |children| == |indents|
    requires forall p :: 0 <= p < |indents| ==> children[p] == JsChildren(indents, |indents|, p)
    ensures children == JsChildLists(indents)
  {
  }

  /**
   * Nothing is lost: each task is a root or in exactly one children list,
   * never both.
   */
  lemma ExactlyOnce(indents: seq<int>, j: nat)
    requires j < |indents|
    ensures var lists := JsChildLists(indents);
      j in JsRoots(indents, |indents|) <==> forall p :: 0 <= p < |indents| ==> j !in lists[p]
    ensures var lists := JsChildLists(indents);
      forall p, p' :: 0 <= p < |indents| && 0 <= p' < |indents| && j in lists[p] && j in lists[p'] ==> p == p'
  {
    var lists := JsChildLists(indents);
    if JsParent(indents, j).Some? {
      assert j in lists[JsParent(indents, j).value];
    }
  }

  /** Task i hangs under a root by children links. */
  predicate InJsForest(indents: seq<int>, i: nat)
    requires i < |indents|
    decreases i
  {
    JsParent(indents, i).None? || InJsForest(indents, JsParent(indents, i).value)
  }

  /** Unlike build_task_hierarchy, the browser builder keeps every task in its forest. */
  lemma {:induction false} AllInJsForest(indents: seq<int>, i: nat)
    requires i < |indents|
    ensures InJsForest(indents, i)
  {
    if JsParent(indents, i).Some? {
      AllInJsForest(indents, JsParent(indents, i).value);
    }
  }

  /**
   * Indents that start at 1 and never jump by more than one level: the
   * input both builders were written for.
   */
  predicate WellFormed(indents: seq<int>) {
    && (forall i :: 0 <= i < |indents| ==> indents[i] >= 1)
    && (|indents| > 0 ==> indents[0] == 1)
    && (forall i :: 0 < i < |indents| ==> indents[i] <= indents[i - 1] + 1)
  }

  /** On well-formed input the stack depth of a task is its indent - 1. */
  lemma {:induction false} DepthIsIndent(indents: seq<int>, i: nat)
    requires WellFormed(indents) && i < |indents|
    ensures Hierarchy.Depth(indents, i) == indents[i] - 1
  {
    if i > 0 {
      DepthIsIndent(indents, i - 1);
    }
  }

  /** On well-formed input, the last task at a depth is the last task at that depth + 1 of indent. */
  lemma {:induction false} LastAtDepthIsLastWithIndent(indents: seq<int>, n: nat, d: nat)
    requires WellFormed(indents) && n <= |indents|
    ensures Hierarchy.LastAtDepth(indents, n, d) == LastWithIndent(indents, n, d + 1)
  {
    if n > 0 {
      DepthIsIndent(indents, n - 1);
      LastAtDepthIsLastWithIndent(indents, n - 1, d);
    }
  }

  /** On well-formed input both builders give every task the same parent. */
  lemma SameParent(indents: seq<int>, i: nat)
    requires WellFormed(indents) && i < |indents|
    ensures Hierarchy.Parent(indents, i) == JsParent(indents, i)
  {
    DepthIsIndent(indents, i);
    if indents[i] != 1 {
      LastAtDepthIsLastWithIndent(indents, i, indents[i] - 2);
    }
  }

  /** On well-formed input both builders collect the same roots. */
  lemma {:induction false} SameRoots(indents: seq<int>, n: nat)
    requires WellFormed(indents) && n <= |indents|
    ensures Hierarchy.RootsUpTo(indents, n) == JsRoots(indents, n)
  {
    if n > 0 {
      SameRoots(indents, n - 1);
      SameParent(indents, n - 1);
    }
  }

  /** On well-formed input both builders give task p the same children. */
  lemma {:induction false} SameChildren(indents: seq<int>, n: nat, p: nat)
    requires WellFormed(indents) && n <= |indents|
    ensures Hierarchy.ChildrenUpTo(indents, n, p) == JsChildren(indents, n, p)
  {
    if n > 0 {
      assert Hierarchy.IndentsValid(indents, n - 1);
      SameChildren(indents, n - 1, p);
      SameParent(indents, n - 1);
    }
  }

  /** On well-formed input both builders build the same forest. */
  lemma SameForest(indents: seq<int>)
    requires WellFormed(indents)
    ensures Hierarchy.RootsUpTo(indents, |indents|) == JsRoots(indents, |indents|)
    ensures Hierarchy.ChildLists(indents, |indents|) == JsChildLists(indents)
  {
    SameRoots(indents, |indents|);
    forall p | 0 <= p < |indents|
      ensures Hierarchy.ChildLists(indents, |indents|)[p] == JsChildLists(indents)[p]
    {
      SameChildren(indents, |indents|, p);
    }
  }

  /**
   * Indents [1, 2, 3, 1, 3]: the stack builder puts task 4 under task 3 (the
   * stack held only task 3), while the browser builder still finds task 1 in
   * lastAtLevel[2] and puts task 4 there.
   */
  lemma StaleLevelExample()
    ensures Hierarchy.Parent([1, 2, 3, 1, 3], 4) == Some(3)
    ensures JsParent([1, 2, 3, 1, 3], 4) == Some(1)
  {
    var ind := [1, 2, 3, 1, 3];
    assert Hierarchy.Depth(ind, 3) == 0;
    assert Hierarchy.Depth(ind, 4) == 1;
    assert Hierarchy.LastAtDepth(ind, 4, 0) == Some(3);
  }

  /**
   * Indents [3, 3]: the stack builder drops both tasks, the browser builder
   * makes both roots.
   */
  lemma OrphansKeptExample()
    ensures Hierarchy.RootsUpTo([3, 3], 2) == []
    ensures JsRoots([3, 3], 2) == [0, 1]
  {
  }
}
