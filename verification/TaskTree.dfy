/** The tree of tasks (talk/base/task.h, talk/base/taskparent.h) and what it
    means to abort a part of it, said without recursion over children: an
    abort reaches a task when every task on the way up to its root is neither
    done nor busy. */
module TaskTree {

  const STATE_BLOCKED := -1
  const STATE_INIT := 0
  const STATE_START := 1
  const STATE_DONE := 2
  const STATE_ERROR := 3

  /** A TaskParent and, except for node 0, a Task. Node 0 is the runner. The
      index of a task is its unique_id. */
  datatype Node = Node(
    parent: nat,
    children: set<nat>,
    childError: bool,
    state: int,
    blocked: bool,
    done: bool,
    aborted: bool,
    busy: bool,
    error: bool,
    timeoutTime: int,
    timeoutSeconds: int,
    suspended: bool,
    deleted: bool)

  /** A child is made after its parent. */
  predicate Grown(nodes: seq<Node>) {
    && |nodes| > 0
    && (forall x :: 0 < x < |nodes| ==> nodes[x].parent < x)
  }

  /** A task is in the child set of its parent exactly while it is not done,
      or done but still stopping. */
  ghost predicate Linked(nodes: seq<Node>, stopping: set<nat>) {
    forall p: nat, x: nat {:trigger x in nodes[p].children} :: p < |nodes| ==>
      (x in nodes[p].children <==>
        0 < x < |nodes| && nodes[x].parent == p && (!nodes[x].done || x in stopping))
  }

  /** A task with the error state is done. */
  predicate ErrorsDone(nodes: seq<Node>) {
    forall x :: 0 <= x < |nodes| && nodes[x].state == STATE_ERROR ==> nodes[x].done
  }

  ghost predicate Tree(nodes: seq<Node>, stopping: set<nat>) {
    && Grown(nodes) && Linked(nodes, stopping) && ErrorsDone(nodes)
    && (forall x :: x in stopping ==> x < |nodes| && nodes[x].done)
  }

  function Undone(nodes: seq<Node>): set<nat> {
    set x: nat | x < |nodes| && !nodes[x].done
  }

  // ------------------------------------------------------------------- abort

  /** An abort of all of roots gets to x. */
  predicate Reached(nodes: seq<Node>, roots: set<nat>, x: nat)
    requires Grown(nodes)
    decreases x
  {
    && 0 < x < |nodes|
    && !nodes[x].done
    && (x in roots || (Reached(nodes, roots, nodes[x].parent) && !nodes[nodes[x].parent].busy))
  }

  /** It also stops x: a busy task is only marked. */
  predicate Stops(nodes: seq<Node>, roots: set<nat>, x: nat)
    requires Grown(nodes)
  {
    Reached(nodes, roots, x) && !nodes[x].busy
  }

  function Stopped(n: Node): Node {
    n.(aborted := true, done := true, blocked := true, error := true)
  }

  function SweptNode(nodes: seq<Node>, roots: set<nat>, x: nat): Node
    requires Grown(nodes) && x < |nodes|
  {
    var n := nodes[x].(children := set c | c in nodes[x].children && !Stops(nodes, roots, c));
    if Stops(nodes, roots, x) then Stopped(n)
    else if Reached(nodes, roots, x) then n.(aborted := true)
    else n
  }

  /** All tasks after an abort of roots. */
  function Swept(nodes: seq<Node>, roots: set<nat>): (r: seq<Node>)
    requires Grown(nodes)
    ensures Grown(r) && |r| == |nodes|
  {
    seq(|nodes|, x requires 0 <= x < |nodes| => SweptNode(nodes, roots, x))
  }

  lemma SweptNothing(nodes: seq<Node>, roots: set<nat>)
    requires Grown(nodes)
    requires forall x :: x in roots && 0 < x < |nodes| ==> nodes[x].done
    ensures Swept(nodes, roots) == nodes
  {
    forall x: nat
      ensures !Reached(nodes, roots, x)
    {
      NothingReached(nodes, roots, x);
    }
    forall x | 0 <= x < |nodes|
      ensures SweptNode(nodes, roots, x) == nodes[x]
    {
      assert SweptNode(nodes, roots, x).children == nodes[x].children;
    }
  }

  lemma {:induction false} NothingReached(nodes: seq<Node>, roots: set<nat>, x: nat)
    requires Grown(nodes)
    requires forall y :: y in roots && 0 < y < |nodes| ==> nodes[y].done
    ensures !Reached(nodes, roots, x)
    decreases x
  {
    if 0 < x < |nodes| {
      NothingReached(nodes, roots, nodes[x].parent);
    }
  }

  lemma SweptLinked(nodes: seq<Node>, roots: set<nat>, stopping: set<nat>)
    requires Tree(nodes, stopping)
    ensures Linked(Swept(nodes, roots), stopping)
  {
    var after := Swept(nodes, roots);
    forall p: nat, x: nat | p < |nodes|
      ensures x in after[p].children <==>
                0 < x < |nodes| && after[x].parent == p && (!after[x].done || x in stopping)
    {
      assert x in after[p].children <==> x in nodes[p].children && !Stops(nodes, roots, x);
    }
  }

  lemma SweptTree(nodes: seq<Node>, roots: set<nat>, stopping: set<nat>)
    requires Tree(nodes, stopping)
    ensures Tree(Swept(nodes, roots), stopping)
    ensures Undone(Swept(nodes, roots)) <= Undone(nodes)
  {
    SweptLinked(nodes, roots, stopping);
  }

  // ------------------------------------------------- one root after the other

  /** Where the abort of roots has not stopped x, an abort of more comes to x
      exactly when the first or a following one does. */
  lemma {:induction false} ReachedInTurn(nodes: seq<Node>, roots: set<nat>, c: nat, x: nat)
    requires Grown(nodes) && !Stops(nodes, roots, x)
    ensures Reached(nodes, roots + {c}, x) <==> Reached(nodes, roots, x) || Reached(Swept(nodes, roots), {c}, x)
    decreases x
  {
    if 0 < x < |nodes| && !nodes[x].done {
      var p := nodes[x].parent;
      if !Stops(nodes, roots, p) {
        ReachedInTurn(nodes, roots, c, p);
      } else {
        assert Reached(nodes, roots, x);
        ReachedMore(nodes, roots, c, x);
      }
    }
  }

  lemma {:induction false} ReachedMore(nodes: seq<Node>, roots: set<nat>, c: nat, x: nat)
    requires Grown(nodes) && Reached(nodes, roots, x)
    ensures Reached(nodes, roots + {c}, x)
    decreases x
  {
    if x !in roots {
      ReachedMore(nodes, roots, c, nodes[x].parent);
    }
  }

  lemma StopsInTurn(nodes: seq<Node>, roots: set<nat>, c: nat, x: nat)
    requires Grown(nodes)
    ensures Stops(nodes, roots + {c}, x) <==> Stops(nodes, roots, x) || Stops(Swept(nodes, roots), {c}, x)
  {
    if Stops(nodes, roots, x) {
      ReachedMore(nodes, roots, c, x);
    } else {
      ReachedInTurn(nodes, roots, c, x);
    }
  }

  lemma SweptInTurn(nodes: seq<Node>, roots: set<nat>, c: nat)
    requires Grown(nodes)
    ensures Swept(Swept(nodes, roots), {c}) == Swept(nodes, roots + {c})
  {
    var mid := Swept(nodes, roots);
    forall x: nat | x < |nodes|
      ensures SweptNode(mid, {c}, x) == SweptNode(nodes, roots + {c}, x)
    {
      StopsInTurn(nodes, roots, c, x);
      if !Stops(nodes, roots, x) {
        ReachedInTurn(nodes, roots, c, x);
      }
      forall k | k in nodes[x].children
        ensures Stops(nodes, roots + {c}, k) <==> Stops(nodes, roots, k) || Stops(mid, {c}, k)
      {
        StopsInTurn(nodes, roots, c, k);
      }
      assert SweptNode(mid, {c}, x).children == SweptNode(nodes, roots + {c}, x).children;
    }
  }

  // ------------------------------------------------------- one task stopping

  /** The parent of c forgets it (OnChildStopped). */
  function Forgotten(nodes: seq<Node>, c: nat): seq<Node>
    requires Grown(nodes) && 0 < c < |nodes|
  {
    var p := nodes[c].parent;
    nodes[p := nodes[p].(
      childError := nodes[p].childError || nodes[c].state == STATE_ERROR,
      children := nodes[p].children - {c})]
  }

  /** A task that has just become done stops: its children are aborted and its
      parent forgets it (OnStopped). */
  function Ended(nodes: seq<Node>, r: nat): seq<Node>
    requires Grown(nodes) && 0 < r < |nodes|
  {
    Forgotten(Swept(nodes, nodes[r].children), r)
  }

  /** The abort of a done root goes on to its children. */
  lemma {:induction false} ReachedBelow(nodes: seq<Node>, stopping: set<nat>, r: nat, x: nat)
    requires Tree(nodes, stopping) && 0 < r < |nodes| && !nodes[r].done && !nodes[r].busy && x != r
    ensures Reached(nodes, {r}, x) <==> Reached(nodes[r := Stopped(nodes[r])], nodes[r].children, x)
    decreases x
  {
    if 0 < x < |nodes| && nodes[x].parent != r {
      ReachedBelow(nodes, stopping, r, nodes[x].parent);
    }
  }

  lemma EndedChildren(nodes: seq<Node>, r: nat, x: nat)
    requires Grown(nodes) && 0 < r < |nodes| && x < |nodes|
    ensures Ended(nodes, r)[x].children ==
            (set k | k in nodes[x].children && !Stops(nodes, nodes[r].children, k) && !(x == nodes[r].parent && k == r))
  {
    var s := Swept(nodes, nodes[r].children);
    assert s[x] == SweptNode(nodes, nodes[r].children, x);
    assert s[r].parent == nodes[r].parent;
  }

  lemma StoppedBelow(nodes: seq<Node>, stopping: set<nat>, r: nat, x: nat)
    requires Tree(nodes, stopping) && 0 < r < |nodes| && !nodes[r].done && !nodes[r].busy && x < |nodes|
    ensures Grown(nodes[r := Stopped(nodes[r])])
    ensures Ended(nodes[r := Stopped(nodes[r])], r)[x].children == Swept(nodes, {r})[x].children
  {
    var marked, kids := nodes[r := Stopped(nodes[r])], nodes[r].children;
    EndedChildren(marked, r, x);
    assert Stops(nodes, {r}, r);
    forall k | k in nodes[x].children
      ensures Stops(marked, kids, k) || (x == nodes[r].parent && k == r) <==> Stops(nodes, {r}, k)
    {
      if k != r { ReachedBelow(nodes, stopping, r, k); }
    }
  }

  lemma EndedNode(nodes: seq<Node>, r: nat, x: nat)
    requires Grown(nodes) && 0 < r < |nodes| && x < |nodes|
    ensures var n := Ended(nodes, r)[x];
            n == SweptNode(nodes, nodes[r].children, x).(children := n.children, childError := n.childError)
    ensures nodes[r].state != STATE_ERROR ==> Ended(nodes, r)[x].childError == nodes[x].childError
  {
    var s := Swept(nodes, nodes[r].children);
    assert s[x] == SweptNode(nodes, nodes[r].children, x);
    assert s[r] == SweptNode(nodes, nodes[r].children, r);
  }

  /** The parent hears when a child ends with an error, and nobody else does. */
  lemma ErrorIsNoted(nodes: seq<Node>, r: nat, x: nat)
    requires Grown(nodes) && 0 < r < |nodes| && x < |nodes|
    ensures |Ended(nodes, r)| == |nodes|
    ensures Ended(nodes, r)[x].childError == (nodes[x].childError || (x == nodes[r].parent && nodes[r].state == 3))
  {
    var s := Swept(nodes, nodes[r].children);
    assert s[x] == SweptNode(nodes, nodes[r].children, x);
    assert s[r] == SweptNode(nodes, nodes[r].children, r);
  }

  /** Marking one task and stopping it is the whole abort. */
  lemma StoppingIsSweeping(nodes: seq<Node>, stopping: set<nat>, r: nat)
    requires Tree(nodes, stopping) && 0 < r < |nodes| && !nodes[r].done && !nodes[r].busy
    ensures Grown(nodes[r := Stopped(nodes[r])])
    ensures Ended(nodes[r := Stopped(nodes[r])], r) == Swept(nodes, {r})
  {
    var marked := nodes[r := Stopped(nodes[r])];
    forall x: nat | x < |nodes|
      ensures Ended(marked, r)[x] == Swept(nodes, {r})[x]
    {
      StoppedBelow(nodes, stopping, r, x);
      EndedNode(marked, r, x);
      assert Stops(nodes, {r}, r);
      if x != r { ReachedBelow(nodes, stopping, r, x); }
    }
  }

  lemma MarkedTree(nodes: seq<Node>, stopping: set<nat>, r: nat, n: Node)
    requires Tree(nodes, stopping) && 0 < r < |nodes| && !nodes[r].done
    requires n.done && n.parent == nodes[r].parent && n.children == nodes[r].children
    ensures Tree(nodes[r := n], stopping + {r})
    ensures Undone(nodes[r := n]) == Undone(nodes) - {r}
  {
  }

  lemma ForgottenTree(nodes: seq<Node>, stopping: set<nat>, r: nat)
    requires Tree(nodes, stopping + {r}) && 0 < r < |nodes| && r !in stopping
    ensures Tree(Forgotten(nodes, r), stopping)
  {
  }

  // --------------------------------------------------- what an abort achieves

  predicate Below(nodes: seq<Node>, r: nat, x: nat)
    requires Grown(nodes)
    decreases x
  {
    x == r || (0 < x < |nodes| && Below(nodes, r, nodes[x].parent))
  }

  /** On the way from x up to r, r left out, some task is busy. */
  predicate Shielded(nodes: seq<Node>, r: nat, x: nat)
    requires Grown(nodes)
    decreases x
  {
    x != r && 0 < x < |nodes| && (nodes[x].busy || Shielded(nodes, r, nodes[x].parent))
  }

  /** A task that is not done has a parent that is not done, unless an abort
      came to it while it was busy. */
  predicate Hanging(nodes: seq<Node>)
    requires Grown(nodes)
  {
    forall x :: 0 < x < |nodes| && !nodes[x].done ==> nodes[x].aborted || !nodes[nodes[x].parent].done
  }

  predicate MarkedAreBusy(nodes: seq<Node>) {
    forall x :: 0 < x < |nodes| && nodes[x].aborted && !nodes[x].done ==> nodes[x].busy
  }

  lemma {:induction false} UndoneIsReached(nodes: seq<Node>, r: nat, x: nat)
    requires Grown(nodes) && Hanging(nodes) && MarkedAreBusy(nodes)
    requires 0 < r && Below(nodes, r, x) && x < |nodes| && !nodes[x].done && !(r < |nodes| && nodes[r].busy)
    ensures Reached(nodes, {r}, x) || Shielded(nodes, r, x)
    decreases x
  {
    if x != r && !nodes[x].busy {
      UndoneIsReached(nodes, r, nodes[x].parent);
    }
  }

  /** After an abort of a task that is not busy, it and all its descendants are
      done, except a busy task and what is below that. */
  lemma AbortReachesAll(nodes: seq<Node>, r: nat, x: nat)
    requires Grown(nodes) && Hanging(nodes) && MarkedAreBusy(nodes)
    requires 0 < r < |nodes| && x < |nodes| && !nodes[r].busy && Below(nodes, r, x)
    ensures Swept(nodes, {r})[x].done || Shielded(nodes, r, x)
  {
    if !nodes[x].done { UndoneIsReached(nodes, r, x); }
  }

  /** What an abort makes of a task: nothing of one that was done; one that was not
      is as it was, but marked, and, if it was not busy, done, blocked and failed. */
  lemma AbortMarks(nodes: seq<Node>, roots: set<nat>, x: nat)
    requires Grown(nodes) && x < |nodes|
    ensures var n, m := nodes[x], Swept(nodes, roots)[x];
            && m == n.(children := m.children, aborted := m.aborted, done := m.done, blocked := m.blocked, error := m.error)
            && (n.done ==> m == n.(children := m.children))
            && (m.done && !n.done ==> m.aborted && m.blocked && m.error && !n.busy)
            && (!m.done ==> m.blocked == n.blocked && m.error == n.error && (m.aborted && !n.aborted ==> n.busy))
            && (0 < x && x in roots && !n.done ==> m.aborted && (m.done <==> !n.busy))
  {
  }

  /** Nothing changes outside what is below it, but for the one child set. */
  lemma AbortReachesNoMore(nodes: seq<Node>, r: nat, x: nat)
    requires Grown(nodes) && 0 < r < |nodes| && x < |nodes| && !Below(nodes, r, x)
    ensures Swept(nodes, {r})[x] == nodes[x].(children := Swept(nodes, {r})[x].children)
  {
    if Reached(nodes, {r}, x) {
      ReachedIsBelow(nodes, {r}, x);
    }
  }

  lemma {:induction false} ReachedIsBelow(nodes: seq<Node>, roots: set<nat>, x: nat)
    requires Grown(nodes) && Reached(nodes, roots, x)
    ensures exists r :: r in roots && Below(nodes, r, x)
    decreases x
  {
    if x in roots {
      assert Below(nodes, x, x);
    } else {
      ReachedIsBelow(nodes, roots, nodes[x].parent);
      var r :| r in roots && Below(nodes, r, nodes[x].parent);
      assert Below(nodes, r, x);
    }
  }

  lemma SweptHangs(nodes: seq<Node>, roots: set<nat>)
    requires Grown(nodes)
    ensures Hanging(nodes) ==> Hanging(Swept(nodes, roots))
    ensures MarkedAreBusy(nodes) ==> MarkedAreBusy(Swept(nodes, roots))
  {
    var after := Swept(nodes, roots);
    forall x: nat | 0 < x < |nodes|
      ensures Hanging(nodes) && !after[x].done ==> after[x].aborted || !after[after[x].parent].done
      ensures MarkedAreBusy(nodes) && after[x].aborted && !after[x].done ==> after[x].busy
    {
      SweptAt(nodes, roots, x);
    }
    hide Swept;
  }

  lemma SweptAt(nodes: seq<Node>, roots: set<nat>, x: nat)
    requires Grown(nodes) && 0 < x < |nodes|
    ensures var after := Swept(nodes, roots);
      && after[x] == SweptNode(nodes, roots, x) && after[x].parent == nodes[x].parent
      && (Hanging(nodes) && !after[x].done ==> after[x].aborted || !after[nodes[x].parent].done)
      && (MarkedAreBusy(nodes) && after[x].aborted && !after[x].done ==> after[x].busy)
  {
    var after := Swept(nodes, roots);
    assert after[nodes[x].parent] == SweptNode(nodes, roots, nodes[x].parent);
  }

  /** The same but for the children of r. */
  predicate HangingBut(nodes: seq<Node>, r: nat)
    requires Grown(nodes)
  {
    forall x :: 0 < x < |nodes| && !nodes[x].done && nodes[x].parent != r ==>
      nodes[x].aborted || !nodes[nodes[x].parent].done
  }

  /** The same after a task of its own accord became done. */
  lemma EndedHangs(nodes: seq<Node>, stopping: set<nat>, r: nat)
    requires Tree(nodes, stopping + {r}) && 0 < r < |nodes| && nodes[r].done
    requires MarkedAreBusy(nodes)
    ensures MarkedAreBusy(Ended(nodes, r))
    ensures HangingBut(nodes, r) ==> Hanging(Ended(nodes, r))
  {
    var e := Ended(nodes, r);
    forall x: nat | 0 < x < |nodes|
      ensures e[x].aborted && !e[x].done ==> e[x].busy
      ensures HangingBut(nodes, r) && !e[x].done ==> e[x].aborted || !e[e[x].parent].done
    {
      EndedNode(nodes, r, x);
      if HangingBut(nodes, r) {
        EndedHangsAt(nodes, stopping, r, x);
      }
    }
  }

  lemma EndedHangsAt(nodes: seq<Node>, stopping: set<nat>, r: nat, x: nat)
    requires Tree(nodes, stopping + {r}) && 0 < r < |nodes| && nodes[r].done && 0 < x < |nodes|
    requires !nodes[x].done && nodes[x].parent != r ==> nodes[x].aborted || !nodes[nodes[x].parent].done
    requires nodes[x].aborted && !nodes[x].done ==> nodes[x].busy
    ensures var e := Ended(nodes, r); !e[x].done ==> e[x].aborted || !e[nodes[x].parent].done
  {
    EndedNode(nodes, r, x);
    EndedNode(nodes, r, nodes[x].parent);
    assert !nodes[x].done && nodes[x].parent == r ==> x in nodes[r].children;
  }

  /** An abort of all children of the runner leaves nothing undone when no task
      is busy. */
  lemma {:induction false} SweepFromTop(nodes: seq<Node>, x: nat)
    requires Tree(nodes, {}) && Hanging(nodes) && MarkedAreBusy(nodes)
    requires forall y :: 0 <= y < |nodes| ==> !nodes[y].busy
    requires 0 < x < |nodes|
    ensures Swept(nodes, nodes[0].children)[x].done
    decreases x
  {
    if !nodes[x].done && nodes[x].parent != 0 {
      SweepFromTop(nodes, nodes[x].parent);
    }
  }

  /** The exact law: while no task is busy, an abort of all children of the runner
      ends every task exactly when every undone task has an undone parent. */
  lemma SweepFromTopExactlyWhen(nodes: seq<Node>)
    requires Tree(nodes, {}) && MarkedAreBusy(nodes) && !nodes[0].done
    requires forall y :: 0 <= y < |nodes| ==> !nodes[y].busy
    ensures (forall x :: 0 < x < |nodes| ==> Swept(nodes, nodes[0].children)[x].done) <==> Hanging(nodes)
  {
    var after := Swept(nodes, nodes[0].children);
    if Hanging(nodes) {
      forall x | 0 < x < |nodes|
        ensures after[x].done
      {
        SweepFromTop(nodes, x);
      }
    } else {
      var x :| 0 < x < |nodes| && !nodes[x].done && !nodes[x].aborted && nodes[nodes[x].parent].done;
      assert !Reached(nodes, nodes[0].children, nodes[x].parent);
      assert after[x] == SweptNode(nodes, nodes[0].children, x);
    }
  }

  /** While no task is busy, everything below a done task is done. */
  lemma {:induction false} DoneBelowDone(nodes: seq<Node>, r: nat, x: nat)
    requires Grown(nodes) && Hanging(nodes) && MarkedAreBusy(nodes)
    requires forall y :: 0 <= y < |nodes| ==> !nodes[y].busy
    requires r < |nodes| && x < |nodes| && nodes[r].done && Below(nodes, r, x)
    ensures nodes[x].done
    decreases x
  {
    if x != r {
      DoneBelowDone(nodes, r, nodes[x].parent);
    }
  }
}
