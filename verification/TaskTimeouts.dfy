/** The task that will time out next, as the runner caches it
    (talk/base/taskrunner.cc). The cache is kept without a search as long as
    that seems possible; here is when that is right. */
module TaskTimeouts {
  import opened Options
  import opened TaskTree

  predicate Queue(nodes: seq<Node>, tasks: seq<nat>) {
    forall i :: 0 <= i < |tasks| ==> 0 < tasks[i] < |nodes|
  }

  /** The task may time out. */
  predicate Pending(n: Node) {
    !n.done && n.timeoutTime > 0
  }

  /** The walk of RecalcNextTimeout over the first n tasks. */
  function Recalculated(nodes: seq<Node>, tasks: seq<nat>, exclude: Option<nat>, n: nat): Option<nat>
    requires Queue(nodes, tasks) && n <= |tasks|
    ensures var r := Recalculated(nodes, tasks, exclude, n); r.Some? ==> r.value in tasks
  {
    if n == 0 then None
    else
      var best, t := Recalculated(nodes, tasks, exclude, n - 1), tasks[n - 1];
      if Pending(nodes[t]) && exclude != Some(t) &&
         (best.None? || nodes[t].timeoutTime <= nodes[best.value].timeoutTime) then Some(t)
      else best
  }

  function Recalc(nodes: seq<Node>, tasks: seq<nat>, exclude: Option<nat>): Option<nat>
    requires Queue(nodes, tasks)
  {
    Recalculated(nodes, tasks, exclude, |tasks|)
  }

  /** The next task after UpdateTaskTimeout for task t. */
  function Updated(nodes: seq<Node>, tasks: seq<nat>, next: Option<nat>, t: nat): (r: Option<nat>)
    requires Queue(nodes, tasks) && t < |nodes| && (next.Some? ==> next.value in tasks)
    ensures r.Some? ==> r.value == t || r.value in tasks
  {
    if nodes[t].timeoutTime != 0 then
      if next.None? || nodes[t].timeoutTime <= nodes[next.value].timeoutTime then Some(t) else next
    else if next == Some(t) then Recalc(nodes, tasks, Some(t))
    else next
  }

  // ----------------------------------------------------------- what they mean

  /** A deadline goes to the cache unless the one there is earlier: of equal ones the
      last that was set is cached. Without a deadline a task is not in the cache. */
  lemma UpdatedExactly(nodes: seq<Node>, tasks: seq<nat>, next: Option<nat>, t: nat)
    requires Queue(nodes, tasks) && t < |nodes| && (next.Some? ==> next.value in tasks)
    ensures nodes[t].timeoutTime != 0 ==>
              Updated(nodes, tasks, next, t) == match next
                case None => Some(t)
                case Some(k) => if nodes[k].timeoutTime < nodes[t].timeoutTime then next else Some(t)
    ensures nodes[t].timeoutTime == 0 ==> Updated(nodes, tasks, next, t) != Some(t)
    ensures nodes[t].timeoutTime == 0 && next != Some(t) ==> Updated(nodes, tasks, next, t) == next
  {
    RecalcIsEarliest(nodes, tasks, Some(t), |tasks|);
  }

  /** No task in the queue has an earlier deadline than the cached one. */
  predicate Earliest(nodes: seq<Node>, tasks: seq<nat>, next: Option<nat>)
    requires Queue(nodes, tasks) && (next.Some? ==> next.value in tasks)
  {
    forall i :: 0 <= i < |tasks| && Pending(nodes[tasks[i]]) ==>
      next.Some? && nodes[next.value].timeoutTime <= nodes[tasks[i]].timeoutTime
  }

  /** No deadline is forgotten altogether. */
  predicate Remembered(nodes: seq<Node>, tasks: seq<nat>, next: Option<nat>)
    requires Queue(nodes, tasks)
  {
    (exists i :: 0 <= i < |tasks| && Pending(nodes[tasks[i]])) ==> next.Some?
  }

  /** RecalcNextTimeout selects a task with the earliest deadline, the last
      such, and none only if there is none. */
  lemma {:induction false} RecalcIsEarliest(nodes: seq<Node>, tasks: seq<nat>, exclude: Option<nat>, n: nat)
    requires Queue(nodes, tasks) && n <= |tasks|
    ensures var r := Recalculated(nodes, tasks, exclude, n);
            match r
            case None => forall i :: 0 <= i < n && Some(tasks[i]) != exclude ==> !Pending(nodes[tasks[i]])
            case Some(k) =>
              && Some(k) != exclude && Pending(nodes[k])
              && (exists i :: 0 <= i < n && tasks[i] == k && Last(nodes, tasks, exclude, i, n))
              && (forall i :: 0 <= i < n && Some(tasks[i]) != exclude && Pending(nodes[tasks[i]]) ==>
                    nodes[k].timeoutTime <= nodes[tasks[i]].timeoutTime)
  {
    if n > 0 {
      RecalcIsEarliest(nodes, tasks, exclude, n - 1);
      var r := Recalculated(nodes, tasks, exclude, n);
      if r == Recalculated(nodes, tasks, exclude, n - 1) && r.Some? {
        if tasks[n - 1] == r.value {
          assert Last(nodes, tasks, exclude, n - 1, n);
        } else {
          var i :| 0 <= i < n - 1 && tasks[i] == r.value && Last(nodes, tasks, exclude, i, n - 1);
          assert Last(nodes, tasks, exclude, i, n);
        }
      } else if r.Some? {
        assert Last(nodes, tasks, exclude, n - 1, n);
      }
    }
  }

  /** Every candidate after place i has a later deadline. */
  predicate Last(nodes: seq<Node>, tasks: seq<nat>, exclude: Option<nat>, i: nat, n: nat)
    requires Queue(nodes, tasks) && i < n <= |tasks|
  {
    forall j :: i < j < n && Some(tasks[j]) != exclude && Pending(nodes[tasks[j]]) ==>
      nodes[tasks[i]].timeoutTime < nodes[tasks[j]].timeoutTime
  }

  /** UpdateTaskTimeout never forgets, whatever the deadline became. */
  lemma UpdateRemembers(nodes: seq<Node>, tasks: seq<nat>, next: Option<nat>, t: nat, n: Node)
    requires Queue(nodes, tasks) && t in tasks && (next.Some? ==> next.value in tasks)
    requires Remembered(nodes, tasks, next)
    ensures Remembered(nodes[t := n], tasks, Updated(nodes[t := n], tasks, next, t))
  {
    var after := nodes[t := n];
    RecalcIsEarliest(after, tasks, Some(t), |tasks|);
    assert forall i :: 0 <= i < |tasks| && tasks[i] != t ==> after[tasks[i]] == nodes[tasks[i]];
  }

  /** UpdateTaskTimeout for a live task keeps the cached deadline earliest in
      every case but one: the cached task itself moves its deadline past that
      of another task. */
  lemma UpdateKeepsEarliestExactlyWhen(nodes: seq<Node>, tasks: seq<nat>, next: Option<nat>, t: nat, deadline: int)
    requires Queue(nodes, tasks) && t in tasks && (next.Some? ==> next.value in tasks)
    requires Earliest(nodes, tasks, next) && !nodes[t].done
    ensures var after := nodes[t := nodes[t].(timeoutTime := deadline)];
            Earliest(after, tasks, Updated(after, tasks, next, t)) <==>
            !(next == Some(t) && deadline != 0 && Overtaken(nodes, tasks, t, deadline))
  {
    var after := nodes[t := nodes[t].(timeoutTime := deadline)];
    var next' := Updated(after, tasks, next, t);
    RecalcIsEarliest(after, tasks, Some(t), |tasks|);
    assert forall i :: 0 <= i < |tasks| && tasks[i] != t ==> after[tasks[i]] == nodes[tasks[i]];
    if next == Some(t) && deadline != 0 && Overtaken(nodes, tasks, t, deadline) {
      var i :| 0 <= i < |tasks| && tasks[i] != t && Pending(nodes[tasks[i]]) && nodes[tasks[i]].timeoutTime < deadline;
      assert Pending(after[tasks[i]]);
    }
  }

  /** Another task has an earlier deadline than this one for t. */
  predicate Overtaken(nodes: seq<Node>, tasks: seq<nat>, t: nat, deadline: int)
    requires Queue(nodes, tasks)
  {
    exists i :: 0 <= i < |tasks| && tasks[i] != t && Pending(nodes[tasks[i]]) && nodes[tasks[i]].timeoutTime < deadline
  }
}
