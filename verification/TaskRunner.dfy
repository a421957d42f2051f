/** The cooperative scheduler (talk/base/task.cc, talk/base/taskparent.cc,
    talk/base/taskrunner.cc): the runner and all tasks made under it. */
module TaskRunners {
  import opened Options
  import opened TaskTree
  import opened TaskTimeouts

  /** What the code of a task may do to itself and to other tasks. */
  datatype Action =
    | Create(parent: nat)
    | Begin(t: nat)
    | Kill(t: nat, nowake: bool)
    | Rouse(t: nat)
    | Fail(t: nat)
    | Limit(t: nat, seconds: int)
    | Suspend(t: nat)
    | Resume(t: nat)
    | Pass(time: int)

  /** One call of a task's own code: what it does and the state it returns. */
  datatype Turn = Turn(actions: seq<Action>, result: int)

  // ------------------------------------------------------------------ the queue

  function Survivors(nodes: seq<Node>, tasks: seq<nat>): seq<nat>
    requires Queue(nodes, tasks)
  {
    if tasks == [] then []
    else
      var n := |tasks| - 1;
      Survivors(nodes, tasks[..n]) + if nodes[tasks[n]].done then [] else [tasks[n]]
  }

  function Finished(nodes: seq<Node>, tasks: seq<nat>): seq<nat>
    requires Queue(nodes, tasks)
  {
    if tasks == [] then []
    else
      var n := |tasks| - 1;
      Finished(nodes, tasks[..n]) + if nodes[tasks[n]].done then [tasks[n]] else []
  }

  predicate Distinct(s: seq<nat>) {
    forall i, j :: 0 <= i < j < |s| ==> s[i] != s[j]
  }

  // -------------------------------------------------------------- invariants

  /** Sound tasks; in a tidy tree an undone task does not hang on a done one. */
  ghost predicate NodesOk(nodes: seq<Node>, tidy: bool) {
    && Tree(nodes, {}) && (tidy ==> Hanging(nodes)) && MarkedAreBusy(nodes)
    && (forall x :: 0 < x < |nodes| && nodes[x].done ==> nodes[x].blocked && !nodes[x].busy)
    && (forall x :: 0 <= x < |nodes| && nodes[x].deleted ==> nodes[x].done)
    && !nodes[0].done
  }

  /** The queue and the cache refer to tasks that exist; a task that has left
      its initial state is in the queue until it is deleted; no deadline of a
      live task is forgotten. */
  predicate QueueOk(nodes: seq<Node>, tasks: seq<nat>, next: Option<nat>) {
    && Queue(nodes, tasks)
    && (forall i :: 0 <= i < |tasks| ==> !nodes[tasks[i]].deleted)
    && (next.Some? ==> next.value in tasks)
    && (forall x :: 0 < x < |nodes| && !nodes[x].deleted && nodes[x].state != STATE_INIT ==> x in tasks)
    && (forall x :: 0 < x < |nodes| && nodes[x].state == STATE_INIT ==> nodes[x].timeoutTime == 0)
    && Remembered(nodes, tasks, next)
  }

  /** The log has every deleted task. */
  ghost predicate LogOk(nodes: seq<Node>, deletions: seq<nat>) {
    forall x: nat :: x in deletions <==> x < |nodes| && nodes[x].deleted
  }

  predicate SameDeleted(before: seq<Node>, after: seq<Node>) {
    && |before| <= |after|
    && (forall x :: 0 <= x < |before| ==> after[x].deleted == before[x].deleted)
    && (forall x :: |before| <= x < |after| ==> !after[x].deleted)
  }

  lemma LogKept(before: seq<Node>, after: seq<Node>, deletions: seq<nat>)
    requires LogOk(before, deletions) && SameDeleted(before, after)
    ensures LogOk(after, deletions)
  {
  }

  predicate NoneBusy(nodes: seq<Node>) {
    forall x :: 0 <= x < |nodes| ==> !nodes[x].busy
  }

  /** What the code of a task cannot undo. */
  predicate Later(before: seq<Node>, after: seq<Node>) {
    && |before| <= |after|
    && (forall x :: 0 <= x < |before| ==>
         && after[x].parent == before[x].parent && after[x].state == before[x].state
         && after[x].busy == before[x].busy && after[x].deleted == before[x].deleted
         && (before[x].done ==> after[x].done) && (before[x].aborted ==> after[x].aborted))
    && forall x :: |before| <= x < |after| ==> !after[x].deleted && !after[x].busy
  }

  function Deadline(n: Node, now: int): int {
    if n.timeoutSeconds != 0 && n.state !in {STATE_INIT, STATE_DONE, STATE_ERROR} && !n.suspended
    then now + n.timeoutSeconds * 1000 * 10000 else 0
  }

  /** What a limit and a suspension make of a task: its deadline lies the limit
      ahead, in units of 100 nanoseconds, but there is none without a limit, while
      it is suspended, and before and after its life. */
  function Limited(n: Node, seconds: int, suspended: bool, now: int): (r: Node)
    ensures r.timeoutTime == if seconds != 0 && !suspended && n.state != 0 && n.state != 2 && n.state != 3 then now + seconds * 10_000_000 else 0
    ensures r == n.(timeoutSeconds := seconds, suspended := suspended, timeoutTime := r.timeoutTime)
  {
    var m := n.(timeoutSeconds := seconds, suspended := suspended);
    m.(timeoutTime := Deadline(m, now))
  }

  predicate Living(nodes: seq<Node>, t: nat) {
    0 < t < |nodes| && !nodes[t].deleted
  }

  /** The tasks after an action. */
  function Acted(nodes: seq<Node>, a: Action, now: int): seq<Node>
    requires Grown(nodes)
  {
    match a
    case Create(parent) => if parent < |nodes| && !nodes[parent].deleted then Created(nodes, parent) else nodes
    case Begin(_) => nodes
    case Kill(t, _) => if Living(nodes, t) then Swept(nodes, {t}) else nodes
    case Rouse(t) => if Living(nodes, t) then nodes[t := nodes[t].(blocked := nodes[t].done)] else nodes
    case Fail(t) =>
      if Living(nodes, t) && !nodes[t].error && !nodes[t].done then nodes[t := nodes[t].(error := true, blocked := false)]
      else nodes
    case Limit(t, seconds) => if Living(nodes, t) then nodes[t := Limited(nodes[t], seconds, nodes[t].suspended, now)] else nodes
    case Suspend(t) =>
      if Living(nodes, t) && !nodes[t].suspended then nodes[t := Limited(nodes[t], nodes[t].timeoutSeconds, true, now)] else nodes
    case Resume(t) =>
      if Living(nodes, t) && nodes[t].suspended then nodes[t := Limited(nodes[t], nodes[t].timeoutSeconds, false, now)] else nodes
    case Pass(_) => nodes
  }

  /** The deadline of a task has come. */
  predicate LimitReached(n: Node, now: int) {
    n.timeoutSeconds != 0 && n.timeoutTime != 0 && n.timeoutTime <= now
  }

  /** The timer is set anew when the next deadline changed, but not when it only
      became later and the timer has not run out yet. */
  function Announced(previous: int, time: int, now: int): nat {
    if time != previous && !(previous != 0 && time > previous > now) then 1 else 0
  }

  function NewTask(parent: nat): Node {
    Node(parent, {}, false, STATE_INIT, false, false, false, false, false, 0, 0, false, false)
  }

  function Created(nodes: seq<Node>, parent: nat): seq<Node>
    requires parent < |nodes|
  {
    nodes[parent := nodes[parent].(children := nodes[parent].children + {|nodes|})] + [NewTask(parent)]
  }

  /** A task that was just made, in fields. */
  lemma CreatedIs(nodes: seq<Node>, parent: nat, x: nat)
    requires parent < |nodes| && x <= |nodes|
    ensures |Created(nodes, parent)| == |nodes| + 1
    ensures x < |nodes| ==>
              Created(nodes, parent)[x] == nodes[x].(children := nodes[x].children + if x == parent then {|nodes|} else {})
    ensures x == |nodes| ==>
              var n := Created(nodes, parent)[x];
              && n.parent == parent && n.children == {} && n.state == 0 && n.timeoutTime == n.timeoutSeconds == 0
              && !n.blocked && !n.done && !n.aborted && !n.busy && !n.error && !n.childError && !n.suspended && !n.deleted
  {
  }

  /** When the timer is told: of a first deadline, of an earlier one, and of any
      change once the old one has run out. */
  lemma AnnouncedExactlyWhen(previous: int, time: int, now: int)
    ensures Announced(previous, time, now) == 1 <==> time < previous || (time > previous && (previous == 0 || now >= previous))
    ensures Announced(previous, time, now) != 1 ==> Announced(previous, time, now) == 0
  {
  }

  // -------------------------------------------------- what keeps the invariants

  lemma NodeFacts(nodes: seq<Node>, tidy: bool, t: nat)
    requires NodesOk(nodes, tidy) && 0 < t < |nodes|
    ensures nodes[t].done ==> nodes[t].blocked && !nodes[t].busy
    ensures nodes[t].aborted && !nodes[t].done ==> nodes[t].busy
    ensures nodes[t].state == STATE_ERROR ==> nodes[t].done
  {
  }

  /** A change of one task that leaves it as done as it was. */
  lemma TouchOk(nodes: seq<Node>, tidy: bool, t: nat, n: Node)
    requires NodesOk(nodes, tidy) && 0 < t < |nodes|
    requires n.parent == nodes[t].parent && n.children == nodes[t].children && n.done == nodes[t].done
    requires n.aborted == nodes[t].aborted && n.deleted == nodes[t].deleted
    requires if n.done then n.blocked && !n.busy else n.aborted ==> n.busy
    requires n.state == STATE_ERROR ==> n.done
    ensures NodesOk(nodes[t := n], tidy)
  {
  }

  lemma SweptOk(nodes: seq<Node>, tidy: bool, roots: set<nat>)
    requires NodesOk(nodes, tidy)
    ensures NodesOk(Swept(nodes, roots), tidy) && Later(nodes, Swept(nodes, roots))
  {
    SweptTree(nodes, roots, {});
    SweptHangs(nodes, roots);
    assert !Reached(nodes, roots, 0);
    SweptNodesOk(nodes, tidy, roots, Swept(nodes, roots));
  }

  lemma SweptNodesOk(nodes: seq<Node>, tidy: bool, roots: set<nat>, after: seq<Node>)
    requires NodesOk(nodes, tidy) && |after| == |nodes| && forall x :: 0 <= x < |nodes| ==> after[x] == SweptNode(nodes, roots, x)
    requires Tree(after, {}) && (tidy ==> Hanging(after)) && MarkedAreBusy(after) && !Reached(nodes, roots, 0)
    ensures NodesOk(after, tidy) && Later(nodes, after)
  {
    hide Tree, Hanging, MarkedAreBusy, Reached;
  }

  lemma CreatedLinked(nodes: seq<Node>, tidy: bool, parent: nat)
    requires NodesOk(nodes, tidy) && parent < |nodes|
    ensures Linked(Created(nodes, parent), {})
  {
    var after := Created(nodes, parent);
    forall p: nat, x: nat | p < |after|
      ensures x in after[p].children <==> 0 < x < |after| && after[x].parent == p && !after[x].done
    {
      if p < |nodes| { assert x in nodes[p].children <==> 0 < x < |nodes| && nodes[x].parent == p && !nodes[x].done; }
    }
  }

  lemma CreatedOk(nodes: seq<Node>, tidy: bool, parent: nat)
    requires NodesOk(nodes, tidy) && parent < |nodes|
    ensures NodesOk(Created(nodes, parent), tidy && !nodes[parent].done) && Later(nodes, Created(nodes, parent))
  {
    CreatedLinked(nodes, tidy, parent);
  }

  lemma LaterTouch(nodes: seq<Node>, t: nat, n: Node)
    requires t < |nodes|
    requires n.parent == nodes[t].parent && n.state == nodes[t].state && n.busy == nodes[t].busy
    requires n.deleted == nodes[t].deleted && n.done == nodes[t].done && n.aborted == nodes[t].aborted
    ensures Later(nodes, nodes[t := n]) && SameDeleted(nodes, nodes[t := n])
  {
  }

  lemma LaterTwice(a: seq<Node>, b: seq<Node>, c: seq<Node>)
    requires Later(a, b) && Later(b, c)
    ensures Later(a, c)
  {
  }

  lemma QueueKept(before: seq<Node>, after: seq<Node>, tasks: seq<nat>, next: Option<nat>)
    requires QueueOk(before, tasks, next) && Later(before, after)
    requires forall x :: 0 <= x < |before| ==> after[x].timeoutTime == before[x].timeoutTime
    requires forall x :: |before| <= x < |after| ==> after[x].state == STATE_INIT && after[x].timeoutTime == 0
    ensures QueueOk(after, tasks, next)
  {
  }

  /** A new deadline, and the cache brought up to date. */
  lemma DeadlineOk(nodes: seq<Node>, tasks: seq<nat>, next: Option<nat>, t: nat, n: Node)
    requires QueueOk(nodes, tasks, next) && 0 < t < |nodes| && !nodes[t].deleted && !n.deleted
    requires n.state == STATE_INIT ==> n.timeoutTime == 0
    requires n.state != STATE_INIT ==> t in tasks
    ensures QueueOk(nodes[t := n], tasks, Updated(nodes[t := n], tasks, next, t))
  {
    if t in tasks {
      UpdateRemembers(nodes, tasks, next, t, n);
    }
  }

  /** A task that has not left its initial state, put in the queue. */
  lemma StartedOk(nodes: seq<Node>, tasks: seq<nat>, next: Option<nat>, t: nat)
    requires QueueOk(nodes, tasks, next) && 0 < t < |nodes| && !nodes[t].deleted && nodes[t].state == STATE_INIT
    ensures Queue(nodes, tasks + [t]) && nodes[t].timeoutTime == 0 && (next.Some? ==> next.value in tasks)
    ensures QueueOk(nodes, tasks + [t], Updated(nodes, tasks + [t], next, t))
  {
    var all := tasks + [t];
    assert Remembered(nodes, all, next) by {
      assert forall i :: 0 <= i < |all| && Pending(nodes[all[i]]) ==> i < |tasks| && Pending(nodes[tasks[i]]);
    }
    UpdateRemembers(nodes, all, next, t, nodes[t]);
    assert nodes[t := nodes[t]] == nodes;
  }

  /** Only what neither the tree, nor the queue, nor a deadline depends on. */
  predicate TouchedOnly(was: Node, n: Node) {
    && n == was.(blocked := n.blocked, error := n.error)
    && (n.done ==> n.blocked == was.blocked)
  }

  lemma Flagged(n: Node)
    requires !n.done
    ensures TouchedOnly(n, n.(error := true))
  {
  }

  // ------------------------------------------------------------ whose turn it is

  /** One step of the scheduler: the place of the task in the queue, how many turns
      were used before, the time, the tasks before and after, and the queue. */
  datatype Stage = Stage(place: nat, at: nat, time: int, before: seq<Node>, after: seq<Node>, queue: seq<nat>)

  /** The task at the place was not blocked. It ended if it had an error pending;
      else it took the next turn, and is done, or in the state the turn returned. */
  predicate StageOk(s: Stage, script: seq<Turn>) {
    && s.place < |s.queue| && s.queue[s.place] < |s.before| && s.queue[s.place] < |s.after|
    && var n, m := s.before[s.queue[s.place]], s.after[s.queue[s.place]];
       && !n.blocked && !n.done
       && if n.error then m.done && m.state == STATE_ERROR
          else s.at < |script| && if m.aborted then m.done
               else TaskRunner.Moved(m, if TaskRunner.OwnTurn(n, s.time) then script[s.at].result else STATE_START)
  }

  /** How many turns are used after the step. */
  function NextAt(s: Stage): nat {
    if s.place < |s.queue| && s.queue[s.place] < |s.before| && !s.before[s.queue[s.place]].error then s.at + 1 else s.at
  }

  /** These steps, and no others, lead from a to b, and use these turns of the script
      in their order. */
  predicate Chain(trace: seq<Stage>, script: seq<Turn>, start: nat, used: nat, a: seq<Node>, b: seq<Node>) {
    && (forall k :: 0 <= k < |trace| ==> StageOk(trace[k], script))
    && (forall k :: 0 < k < |trace| ==> trace[k].before == trace[k - 1].after && trace[k].at == NextAt(trace[k - 1]))
    && if trace == [] then a == b && start == used
       else trace[0].before == a && trace[0].at == start && trace[|trace| - 1].after == b && NextAt(trace[|trace| - 1]) == used
  }

  predicate AllBlockedIn(nodes: seq<Node>, queue: seq<nat>, from: nat, to: nat) {
    from <= to <= |queue| && forall j :: from <= j < to ==> queue[j] < |nodes| && nodes[queue[j]].blocked
  }

  /** After the step the turn may go on to the task at place q: all that it passes
      over on the way round the queue are blocked. */
  predicate GoesTo(s: Stage, q: nat) {
    if s.place <= q then s.place < q ==> AllBlockedIn(s.after, s.queue, s.place, q)
    else AllBlockedIn(s.after, s.queue, s.place, |s.queue|) && AllBlockedIn(s.after, s.queue, 0, q)
  }

  /** The tasks have their turns in the order of the queue, each until it is blocked,
      and round again. */
  predicate RoundRobin(trace: seq<Stage>) {
    forall k :: 0 < k < |trace| ==> GoesTo(trace[k - 1], trace[k].place)
  }

  predicate RoundEnds(s: Stage, nodes: seq<Node>, queue: seq<nat>) {
    s.after == nodes && s.queue == queue && AllBlockedIn(nodes, queue, s.place, |queue|)
  }

  lemma NothingChained(script: seq<Turn>, start: nat, a: seq<Node>)
    ensures Chain([], script, start, start, a, a) && RoundRobin([])
  {
  }

  lemma ChainGrows(trace: seq<Stage>, s: Stage, script: seq<Turn>, start: nat, a: seq<Node>)
    requires Chain(trace, script, start, s.at, a, s.before) && StageOk(s, script)
    ensures Chain(trace + [s], script, start, NextAt(s), a, s.after)
  {
    hide StageOk, NextAt;
  }

  lemma ChainsJoin(s: seq<Stage>, t: seq<Stage>, script: seq<Turn>, start: nat, at: nat, used: nat,
                   a: seq<Node>, b: seq<Node>, c: seq<Node>)
    requires Chain(s, script, start, at, a, b) && Chain(t, script, at, used, b, c)
    ensures Chain(s + t, script, start, used, a, c)
    ensures s != [] ==> s[|s| - 1].after == b
    ensures t != [] ==> t[|t| - 1].after == c
    ensures t == [] ==> b == c
  {
    hide StageOk, NextAt;
  }

  lemma RoundsJoin(s: seq<Stage>, t: seq<Stage>, b: seq<Node>, queue: seq<nat>)
    requires RoundRobin(s) && RoundRobin(t)
    requires s != [] ==> RoundEnds(s[|s| - 1], b, queue)
    requires t != [] ==> AllBlockedIn(b, queue, 0, t[0].place)
    ensures RoundRobin(s + t)
  {
  }

  /** A round that began with a and its queue and has come to place i. */
  predicate RoundAt(s: seq<Stage>, a: seq<Node>, onQueue: seq<nat>, b: seq<Node>, queue: seq<nat>, i: nat) {
    if s == [] then a == b && onQueue == queue && AllBlockedIn(a, queue, 0, i)
    else
      && AllBlockedIn(a, onQueue, 0, s[0].place) && s[|s| - 1].after == b && s[|s| - 1].queue == queue
      && s[|s| - 1].place < i && AllBlockedIn(b, queue, s[|s| - 1].place, i)
  }

  lemma RoundBegins(a: seq<Node>, queue: seq<nat>)
    ensures RoundAt([], a, queue, a, queue, 0)
  {
  }

  /** The steps of one task are added to a round. */
  lemma PartJoins(s: seq<Stage>, t: seq<Stage>, a: seq<Node>, first: seq<nat>, b: seq<Node>, onQueue: seq<nat>,
                  c: seq<Node>, queue: seq<nat>, i: nat)
    requires RoundRobin(s) && RoundAt(s, a, first, b, onQueue, i) && forall k :: 0 <= k < |t| ==> t[k].place == i
    requires if t == [] then b == c && onQueue == queue else t[|t| - 1].after == c && t[|t| - 1].queue == queue
    requires i < |queue| && queue[i] < |c|
    ensures RoundRobin(s + t) && (s + t != [] ==> AllBlockedIn(a, first, 0, (s + t)[0].place))
    ensures s + t == [] ==> a == c && first == queue
    ensures c[queue[i]].blocked ==> RoundAt(s + t, a, first, c, queue, i + 1)
  {
    assert s + t != [] ==> (s + t)[0] == if s != [] then s[0] else t[0];
    assert s + t != [] ==> (s + t)[|s + t| - 1] == if t != [] then t[|t| - 1] else s[|s| - 1];
  }

  /** Where all are blocked, none has a turn. */
  lemma StillIdle(s: seq<Stage>, t: seq<Stage>, a: seq<Node>, first: seq<nat>, b: seq<Node>, onQueue: seq<nat>, i: nat)
    requires AllBlocked(a, first) && s == [] && RoundAt(s, a, first, b, onQueue, i) && i < |onQueue|
    ensures onQueue[i] < |b| && b[onQueue[i]].blocked
  {
  }

  lemma RoundOver(s: seq<Stage>, a: seq<Node>, onQueue: seq<nat>, b: seq<Node>, queue: seq<nat>)
    requires RoundAt(s, a, onQueue, b, queue, |queue|)
    ensures s != [] ==> RoundEnds(s[|s| - 1], b, queue) && AllBlockedIn(a, onQueue, 0, s[0].place)
    ensures s == [] && Queue(b, queue) ==> AllBlocked(b, queue)
  {
  }

  lemma StageIs(s: Stage, script: seq<Turn>)
    requires s.place < |s.queue| && s.queue[s.place] < |s.before| && s.queue[s.place] < |s.after|
    requires var n, m := s.before[s.queue[s.place]], s.after[s.queue[s.place]];
             && !n.blocked && !n.done
             && if n.error then m.done && m.state == STATE_ERROR
                else s.at < |script| && if m.aborted then m.done
                     else TaskRunner.Moved(m, if TaskRunner.OwnTurn(n, s.time) then script[s.at].result else STATE_START)
    ensures StageOk(s, script) && NextAt(s) == if s.before[s.queue[s.place]].error then s.at else s.at + 1
  {
  }

  lemma UnblockedIsUndone(nodes: seq<Node>, tidy: bool, tasks: seq<nat>, next: Option<nat>, t: nat)
    requires NodesOk(nodes, tidy) && QueueOk(nodes, tasks, next) && t in tasks
    ensures t < |nodes| && (nodes[t].done ==> nodes[t].blocked)
  {
  }

  class TaskRunner {
    var nodes: seq<Node>
    var tasks: seq<nat>
    var next: Option<nat>
    var running: bool
    var now: int
    var deletions: seq<nat>
    var wakeRequests: nat
    var timeoutChanges: nat
    /** Some task was started again before its first step. */
    ghost var twice: bool
    /** Some task was made under a task that was done. */
    ghost var orphan: bool

    /** Without that, no task is in the queue twice, or deleted twice. */
    ghost predicate Valid()
      reads this
    {
      && NodesOk(nodes, !orphan) && QueueOk(nodes, tasks, next) && LogOk(nodes, deletions)
      && (!twice ==> Distinct(tasks) && Distinct(deletions))
    }

    /** No task yet. */
    constructor (time: int)
      ensures Valid() && NoneBusy(nodes) && nodes == [NewTask(0)] && tasks == [] && next.None?
      ensures !running && now == time && deletions == [] && !twice && !orphan
    {
      nodes, tasks, next, running, now := [NewTask(0)], [], None, false, time;
      deletions, wakeRequests, timeoutChanges, twice, orphan := [], 0, 0, false, false;
    }

    // ------------------------------------------------------------------ abort

    /** AbortAllChildren: over a copy of the child set, in any order. */
    method AbortAllChildren(p: nat, ghost stopping: set<nat>)
      requires Tree(nodes, stopping) && p < |nodes|
      modifies `nodes, `wakeRequests
      ensures nodes == Swept(old(nodes), old(nodes)[p].children)
      ensures wakeRequests == old(wakeRequests)
      decreases |Undone(nodes)|, 1
    {
      var copy := nodes[p].children;
      ghost var before := nodes;
      ghost var aborted: set<nat> := {};
      SweptNothing(nodes, {});
      while copy != {}
        invariant aborted + copy == before[p].children
        invariant nodes == Swept(before, aborted)
        invariant wakeRequests == old(wakeRequests)
        decreases |copy|
      {
        var c :| c in copy;
        copy := copy - {c};
        AbortNext(before, stopping, p, aborted, c);
        Abort(c, true, stopping);
        aborted := aborted + {c};
      }
    }

    /** OnStopped, for a task that has just become done. */
    method OnStopped(r: nat, ghost stopping: set<nat>)
      requires Tree(nodes, stopping + {r}) && 0 < r < |nodes| && r !in stopping
      modifies `nodes, `wakeRequests
      ensures nodes == Ended(old(nodes), r)
      ensures Tree(nodes, stopping)
      ensures wakeRequests == old(wakeRequests)
      decreases |Undone(nodes)|, 2
    {
      SweptTree(nodes, nodes[r].children, stopping + {r});
      AbortAllChildren(r, stopping + {r});
      ForgottenTree(nodes, stopping, r);
      var p := nodes[r].parent;
      var childError := nodes[p].childError || nodes[r].state == STATE_ERROR;
      nodes := nodes[p := nodes[p].(childError := childError, children := nodes[p].children - {r})];
    }

    /** Abort: a busy task is only marked, and stops when its step is over. */
    method Abort(r: nat, nowake: bool, ghost stopping: set<nat>)
      requires Tree(nodes, stopping) && 0 < r < |nodes|
      modifies `nodes, `wakeRequests
      ensures nodes == Swept(old(nodes), {r})
      ensures wakeRequests == old(wakeRequests) + if !nowake && Stops(old(nodes), {r}, r) then 1 else 0
      decreases |Undone(nodes)|, 0
    {
      ghost var before := nodes;
      if nodes[r].done {
        SweptNothing(nodes, {r});
        return;
      }
      if nodes[r].busy {
        nodes := nodes[r := nodes[r].(aborted := true)];
        SweptBusy(before, r);
        return;
      }
      StoppingIsSweeping(before, stopping, r);
      MarkedTree(before, stopping, r, Stopped(before[r]));
      Smaller(Undone(before), r);
      nodes := nodes[r := nodes[r].(aborted := true, done := true, blocked := true, error := true)];
      OnStopped(r, stopping);
      if !nowake {
        wakeRequests := wakeRequests + 1;
      }
    }

    // --------------------------------------------------------------- timeouts

    /** RecalcNextTimeout. */
    method RecalcNextTimeout(exclude: Option<nat>)
      requires Queue(nodes, tasks)
      modifies `next
      ensures next == Recalc(nodes, tasks, exclude)
    {
      var nextTime := 0;
      next := None;
      for i := 0 to |tasks|
        invariant next == Recalculated(nodes, tasks, exclude, i)
        invariant next.Some? ==> next.value in tasks && nextTime == nodes[next.value].timeoutTime > 0
        invariant next.None? ==> nextTime == 0
      {
        var t := tasks[i];
        if !nodes[t].done && nodes[t].timeoutTime > 0 {
          if exclude != Some(t) {
            if nextTime == 0 || nodes[t].timeoutTime <= nextTime {
              nextTime := nodes[t].timeoutTime;
              next := Some(t);
            }
          }
        }
      }
    }

    function NextTaskTimeout(): int
      requires next.Some? ==> next.value < |nodes|
      reads this
    {
      if next.Some? then nodes[next.value].timeoutTime else 0
    }

    method CheckForTimeoutChange(previous: int)
      requires next.Some? ==> next.value < |nodes|
      modifies `timeoutChanges
      ensures timeoutChanges == old(timeoutChanges) + Announced(previous, NextTaskTimeout(), now)
    {
      var time := NextTaskTimeout();
      if (previous == 0 && time != 0) || time < previous || (previous <= now && previous != time) {
        timeoutChanges := timeoutChanges + 1;
      }
    }

    method UpdateTaskTimeout(t: nat, previousTaskTime: int)
      requires Queue(nodes, tasks) && (next.Some? ==> next.value in tasks)
      requires t < |nodes| && (nodes[t].timeoutTime != 0 ==> t in tasks)
      modifies `next, `timeoutChanges
      ensures next == Updated(nodes, tasks, old(next), t)
      ensures timeoutChanges == old(timeoutChanges) + if running then 0 else
                Announced(if old(next) == Some(t) then previousTaskTime else old(NextTaskTimeout()), NextTaskTimeout(), now)
    {
      var previous := if next == Some(t) then previousTaskTime else NextTaskTimeout();
      if nodes[t].timeoutTime != 0 {
        if next.None? || nodes[t].timeoutTime <= nodes[next.value].timeoutTime {
          next := Some(t);
        }
      } else if next == Some(t) {
        RecalcNextTimeout(Some(t));
      }
      if !running {
        CheckForTimeoutChange(previous);
      }
    }

    method ResetTimeout(t: nat)
      requires Queue(nodes, tasks) && (next.Some? ==> next.value in tasks)
      requires t < |nodes| && (nodes[t].state != STATE_INIT ==> t in tasks)
      modifies `nodes, `next, `timeoutChanges
      ensures nodes == old(nodes)[t := old(nodes)[t].(timeoutTime := Deadline(old(nodes)[t], now))]
      ensures next == Updated(nodes, tasks, old(next), t)
      ensures timeoutChanges == old(timeoutChanges) + if running then 0 else Announced(old(NextTaskTimeout()), NextTaskTimeout(), now)
    {
      var previous := nodes[t].timeoutTime;
      var allowed := nodes[t].state != STATE_INIT && nodes[t].state != STATE_DONE && nodes[t].state != STATE_ERROR;
      var time := if nodes[t].timeoutSeconds != 0 && allowed && !nodes[t].suspended
                  then now + nodes[t].timeoutSeconds * 1000 * 10000 else 0;
      nodes := nodes[t := nodes[t].(timeoutTime := time)];
      UpdateTaskTimeout(t, previous);
    }

    method ClearTimeout(t: nat)
      requires Queue(nodes, tasks) && (next.Some? ==> next.value in tasks) && t < |nodes|
      modifies `nodes, `next, `timeoutChanges
      ensures nodes == old(nodes)[t := old(nodes)[t].(timeoutTime := 0)]
      ensures next == Updated(nodes, tasks, old(next), t)
      ensures timeoutChanges == old(timeoutChanges) + if running then 0 else Announced(old(NextTaskTimeout()), NextTaskTimeout(), now)
    {
      var previous := nodes[t].timeoutTime;
      nodes := nodes[t := nodes[t].(timeoutTime := 0)];
      UpdateTaskTimeout(t, previous);
    }

    predicate TimedOut(t: nat)
      requires t < |nodes|
      reads this
    {
      nodes[t].timeoutSeconds != 0 && nodes[t].timeoutTime != 0 && now >= nodes[t].timeoutTime
    }

    // ------------------------------------------------------- a task's own code

    /** The invariants hold, and nothing that is over was undone. */
    twostate predicate Went()
      reads this
    {
      && Valid() && Later(old(nodes), nodes) && old(tasks) <= tasks
      && running == old(running) && deletions == old(deletions) && (old(twice) ==> twice)
      && (old(orphan) ==> orphan)
    }

    /** The constructor of a Task. */
    method Create(parent: nat)
      requires Valid() && parent < |nodes| && !nodes[parent].deleted
      modifies `nodes, `orphan
      ensures Went() && nodes == Created(old(nodes), parent) && orphan == (old(orphan) || old(nodes)[parent].done)
    {
      CreatedOk(nodes, !orphan, parent);
      QueueKept(nodes, Created(nodes, parent), tasks, next);
      LogKept(nodes, Created(nodes, parent), deletions);
      orphan := orphan || nodes[parent].done;
      nodes := nodes[parent := nodes[parent].(children := nodes[parent].children + {|nodes|})] + [NewTask(parent)];
    }

    /** Start, which only asks whether the task has left its initial state. */
    method Begin(t: nat)
      requires Valid() && 0 < t < |nodes| && !nodes[t].deleted
      modifies `tasks, `next, `timeoutChanges, `wakeRequests, `twice
      ensures Went()
      ensures nodes[t].state != STATE_INIT ==> tasks == old(tasks) && wakeRequests == old(wakeRequests) && twice == old(twice)
      ensures nodes[t].state == STATE_INIT ==>
        && tasks == old(tasks) + [t] && wakeRequests == old(wakeRequests) + 1
        && twice == (old(twice) || t in old(tasks))
    {
      if nodes[t].state != STATE_INIT { return; }
      hide NodesOk, LogOk, Hanging;
      var all := tasks + [t];
      StartedOk(nodes, tasks, next, t);
      DistinctSnoc(tasks, t);
      hide QueueOk, Distinct;
      twice := twice || t in tasks;
      tasks := all;
      UpdateTaskTimeout(t, 0);
      wakeRequests := wakeRequests + 1;
    }

    /** A change that leaves a task where it is in the tree and in the queue. */
    method Touch(t: nat, n: Node)
      requires Valid() && 0 < t < |nodes| && TouchedOnly(nodes[t], n)
      modifies `nodes
      ensures Went() && nodes == old(nodes)[t := n]
    {
      NodeFacts(nodes, !orphan, t);
      TouchOk(nodes, !orphan, t, n);
      LaterTouch(nodes, t, n);
      QueueKept(nodes, nodes[t := n], tasks, next);
      LogKept(nodes, nodes[t := n], deletions);
      hide NodesOk, QueueOk, LogOk, Later;
      nodes := nodes[t := n];
    }

    method Wake(t: nat)
      requires Valid() && 0 < t < |nodes| && !nodes[t].deleted
      modifies `nodes, `wakeRequests
      ensures Went()
      ensures nodes == old(nodes)[t := old(nodes)[t].(blocked := old(nodes)[t].done)]
      ensures wakeRequests == old(wakeRequests) + if !old(nodes)[t].done && old(nodes)[t].blocked then 1 else 0
    {
      NodeFacts(nodes, !orphan, t);
      LaterTouch(nodes, t, nodes[t]);
      hide NodesOk, QueueOk, LogOk, Later;
      assert nodes[t := nodes[t]] == nodes;
      if nodes[t].done { return; }
      if nodes[t].blocked {
        Touch(t, nodes[t].(blocked := false));
        wakeRequests := wakeRequests + 1;
      }
    }

    /** Abort, called from outside. */
    method Kill(t: nat, nowake: bool)
      requires Valid() && 0 < t < |nodes|
      modifies `nodes, `wakeRequests
      ensures Went() && nodes == Swept(old(nodes), {t})
    {
      SweptOk(nodes, !orphan, {t});
      QueueKept(nodes, Swept(nodes, {t}), tasks, next);
      LogKept(nodes, Swept(nodes, {t}), deletions);
      Abort(t, nowake, {});
    }

    method Error(t: nat)
      requires Valid() && 0 < t < |nodes| && !nodes[t].deleted
      modifies `nodes, `wakeRequests
      ensures Went()
      ensures var n := old(nodes)[t];
              nodes == old(nodes)[t := if n.error || n.done then n else n.(error := true, blocked := false)]
    {
      hide Valid, Later, TouchedOnly;
      LaterTouch(nodes, t, nodes[t]);
      assert nodes[t := nodes[t]] == nodes;
      if nodes[t].error || nodes[t].done { return; }
      ghost var before := nodes;
      Flagged(nodes[t]);
      Touch(t, nodes[t].(error := true));
      ghost var between := nodes;
      Wake(t);
      LaterTwice(before, between, nodes);
    }

    /** The three calls that change the terms of a timeout and then reset it. */
    method Retime(t: nat, seconds: int, suspended: bool)
      requires Valid() && 0 < t < |nodes| && !nodes[t].deleted
      modifies `nodes, `next, `timeoutChanges
      ensures Went()
      ensures var n := old(nodes)[t].(timeoutSeconds := seconds, suspended := suspended);
              nodes == old(nodes)[t := n.(timeoutTime := Deadline(n, now))]
      ensures nodes == old(nodes)[t := Limited(old(nodes)[t], seconds, suspended, now)]
      ensures Queue(nodes, tasks) && (old(next).Some? ==> old(next).value in tasks)
      ensures next == Updated(nodes, tasks, old(next), t)
    {
      hide LogOk, Distinct;
      ghost var before := nodes;
      ghost var was := next;
      nodes := nodes[t := nodes[t].(timeoutSeconds := seconds, suspended := suspended)];
      ResetTimeout(t);
      assert nodes == before[t := nodes[t]];
      TouchOk(before, !orphan, t, nodes[t]);
      LaterTouch(before, t, nodes[t]);
      DeadlineOk(before, tasks, was, t, nodes[t]);
      LogKept(before, nodes, deletions);
    }

    /** One action of user code. The calls it cannot make, on tasks that are
        not there any more, do nothing here. */
    method Perform(a: Action)
      requires Valid()
      modifies `nodes, `tasks, `next, `now, `timeoutChanges, `wakeRequests, `twice, `orphan
      ensures Went()
      ensures now == (if a.Pass? then a.time else old(now))
      ensures tasks == (if a.Begin? && old(Alive(a.t)) && old(nodes)[a.t].state == STATE_INIT then old(tasks) + [a.t] else old(tasks))
      ensures nodes == Acted(old(nodes), a, now) && (a.Pass? ==> next == old(next))
      ensures twice == (old(twice) || (a.Begin? && old(StartsAgain(a.t))))
      ensures orphan == (old(orphan) || (a.Create? && old(Orphans(a.parent))))
    {
      LaterItself(nodes);
      hide NodesOk, QueueOk, LogOk, Distinct, Later, Created, Swept, Limited, Deadline, Updated;
      match a
      case Create(parent) => if parent < |nodes| && !nodes[parent].deleted { Create(parent); }
      case Begin(t) => if Alive(t) { Begin(t); }
      case Kill(t, nowake) => if Alive(t) { Kill(t, nowake); }
      case Rouse(t) => if Alive(t) { Wake(t); }
      case Fail(t) => if Alive(t) { Error(t); }
      case Limit(t, seconds) => if Alive(t) { Retime(t, seconds, nodes[t].suspended); }
      case Suspend(t) => if Alive(t) && !nodes[t].suspended { Retime(t, nodes[t].timeoutSeconds, true); }
      case Resume(t) => if Alive(t) && nodes[t].suspended { Retime(t, nodes[t].timeoutSeconds, false); }
      case Pass(time) => now := time;
    }

    predicate Alive(t: nat)
      reads this
    {
      0 < t < |nodes| && !nodes[t].deleted
    }

    /** A task made under this one would hang on a done task. */
    predicate Orphans(parent: nat)
      reads this
    {
      parent < |nodes| && !nodes[parent].deleted && nodes[parent].done
    }

    /** A call of Start would put the task in the queue a second time. */
    predicate StartsAgain(t: nat)
      reads this
    {
      Alive(t) && nodes[t].state == STATE_INIT && t in tasks
    }

    method PerformAll(actions: seq<Action>)
      requires Valid()
      modifies `nodes, `tasks, `next, `now, `timeoutChanges, `wakeRequests, `twice, `orphan
      ensures Went()
      ensures actions == [] ==> nodes == old(nodes) && tasks == old(tasks) && next == old(next) && now == old(now)
    {
      for i := 0 to |actions|
        invariant Went()
        invariant i == 0 ==> nodes == old(nodes) && tasks == old(tasks) && next == old(next) && now == old(now)
      {
        Perform(actions[i]);
      }
    }

    // ---------------------------------------------------------------- one step

    /** Code of the task's own runs: for a timeout, or for a state that is not
        the first. */
    static predicate OwnTurn(n: Node, now: int) {
      (n.timeoutSeconds != 0 && n.timeoutTime != 0 && now >= n.timeoutTime) || n.state != STATE_INIT
    }

    /** The tasks as the code of task r finds them when it is its turn: a deadline
        that has come is gone by then. */
    static function AtEntry(nodes: seq<Node>, r: nat, now: int): (e: seq<Node>)
      requires r < |nodes|
      ensures |e| == |nodes| && forall x :: 0 <= x < |nodes| && x != r ==> e[x] == nodes[x]
      ensures e[r] == nodes[r].(timeoutTime := e[r].timeoutTime)
      ensures e[r].timeoutTime ==
              if nodes[r].timeoutSeconds != 0 && 0 != nodes[r].timeoutTime <= now then 0 else nodes[r].timeoutTime
    {
      nodes[r := nodes[r].(timeoutTime := if LimitReached(nodes[r], now) then 0 else nodes[r].timeoutTime)]
    }

    /** Process: a timeout is told to the task first; a task that was only
        started moves to its first state; else its own code runs. */
    method Process(r: nat, turn: Turn) returns (newState: int, ghost entry: seq<Node>)
      requires Valid() && r in tasks
      modifies `nodes, `tasks, `next, `now, `timeoutChanges, `wakeRequests, `twice, `orphan
      ensures Went()
      ensures newState == if OwnTurn(old(nodes)[r], old(now)) then turn.result else STATE_START
      ensures !OwnTurn(old(nodes)[r], old(now)) ==>
        nodes == old(nodes) && tasks == old(tasks) && next == old(next) && now == old(now)
      ensures r < |old(nodes)| && entry == AtEntry(old(nodes), r, old(now))
      ensures turn.actions == [] ==> nodes == entry && tasks == old(tasks) && now == old(now)
      ensures turn.actions == [] && !LimitReached(old(nodes)[r], old(now)) ==> next == old(next)
    {
      QueueOkMeans(nodes, tasks, next);
      LaterItself(nodes);
      EntryIs(nodes, r, now);
      hide NodesOk, QueueOk, LogOk, Distinct, Later, Queue, AtEntry;
      ghost var before := nodes;
      entry := AtEntry(nodes, r, now);
      if TimedOut(r) {
        Expire(r);
        PerformAll(turn.actions);
        LaterTwice(before, entry, nodes);
        newState := turn.result;
      } else if nodes[r].state == STATE_INIT {
        newState := STATE_START;
      } else {
        PerformAll(turn.actions);
        newState := turn.result;
      }
    }

    static lemma EntryIs(nodes: seq<Node>, r: nat, now: int)
      requires r < |nodes|
      ensures AtEntry(nodes, r, now) == if LimitReached(nodes[r], now) then nodes[r := nodes[r].(timeoutTime := 0)] else nodes
    {
      assert nodes == nodes[r := nodes[r]];
    }

    /** A deadline that has come is taken away. */
    method Expire(r: nat)
      requires Valid() && r in tasks && r < |nodes|
      modifies `nodes, `next, `timeoutChanges
      ensures Went() && nodes == old(nodes)[r := old(nodes)[r].(timeoutTime := 0)]
    {
      TouchOk(nodes, !orphan, r, nodes[r].(timeoutTime := 0));
      DeadlineOk(nodes, tasks, next, r, nodes[r].(timeoutTime := 0));
      LaterTouch(nodes, r, nodes[r].(timeoutTime := 0));
      LogKept(nodes, nodes[r := nodes[r].(timeoutTime := 0)], deletions);
      ClearTimeout(r);
    }

    /** The rest of a step, after the task's own code returned. */
    method Conclude(r: nat, newState: int)
      requires NodesOk(nodes, !orphan) && QueueOk(nodes, tasks, next)
      requires r in tasks && !nodes[r].done && nodes[r].busy && OnlyBusy(nodes, r)
      modifies `nodes, `next, `timeoutChanges, `wakeRequests
      ensures NodesOk(nodes, !orphan) && QueueOk(nodes, tasks, next) && NoneBusy(nodes)
      ensures |nodes| == |old(nodes)| && SameDeleted(old(nodes), nodes)
      ensures old(nodes)[r].aborted ==> nodes[r].aborted && nodes[r].done
      ensures !old(nodes)[r].aborted && newState in {STATE_DONE, STATE_ERROR} ==> nodes[r].done && nodes[r].state == newState
      ensures !old(nodes)[r].aborted && newState == STATE_BLOCKED ==>
                nodes == old(nodes)[r := old(nodes)[r].(busy := false, blocked := true)] && next == old(next)
      ensures !old(nodes)[r].aborted && newState !in {STATE_BLOCKED, STATE_DONE, STATE_ERROR} ==>
                var n := old(nodes)[r].(busy := false, blocked := false, state := newState);
                nodes == old(nodes)[r := n.(timeoutTime := Deadline(n, now))]
    {
      ghost var before := nodes;
      nodes := nodes[r := nodes[r].(busy := false)];
      if nodes[r].aborted {
        AbortedOk(before, !orphan, r);
        FlagsKeepQueue(before, Swept(nodes, {r}), tasks, next);
        Abort(r, true, {});
      } else if newState == STATE_BLOCKED {
        nodes := nodes[r := nodes[r].(blocked := true)];
        assert nodes == before[r := nodes[r]];
        TouchOk(before, !orphan, r, nodes[r]);
        FlagsKeepQueue(before, nodes, tasks, next);
      } else {
        Advance(before, r, newState);
      }
    }

    method Advance(ghost before: seq<Node>, r: nat, newState: int)
      requires NodesOk(before, !orphan) && QueueOk(before, tasks, next) && newState != STATE_BLOCKED
      requires r in tasks && !before[r].done && !before[r].aborted && OnlyBusy(before, r)
      requires nodes == before[r := before[r].(busy := false)]
      modifies `nodes, `next, `timeoutChanges, `wakeRequests
      ensures NodesOk(nodes, !orphan) && QueueOk(nodes, tasks, next) && NoneBusy(nodes)
      ensures |nodes| == |before| && SameDeleted(before, nodes)
      ensures newState in {STATE_DONE, STATE_ERROR} ==> nodes[r].done && nodes[r].state == newState
      ensures newState !in {STATE_DONE, STATE_ERROR} ==>
                var n := before[r].(busy := false, blocked := false, state := newState);
                nodes == before[r := n.(timeoutTime := Deadline(n, now))]
    {
      Move(before, r, newState);
      hide NodesOk, QueueOk;
      if newState == STATE_DONE {
        End(before, r, false);
      } else if newState == STATE_ERROR {
        End(before, r, true);
      } else {
        TouchOk(before, !orphan, r, nodes[r]);
      }
    }

    /** The new state, and the deadline that goes with it. */
    method Move(ghost before: seq<Node>, r: nat, newState: int)
      requires NodesOk(before, !orphan) && QueueOk(before, tasks, next) && newState != STATE_BLOCKED
      requires r in tasks && nodes == before[r := before[r].(busy := false)]
      modifies `nodes, `next, `timeoutChanges
      ensures 0 < r < |before| && !before[r].deleted && QueueOk(nodes, tasks, next)
      ensures var n := before[r].(busy := false, blocked := false, state := newState);
              nodes == before[r := n.(timeoutTime := Deadline(n, now))]
    {
      ghost var was := next;
      QueueOkMeans(before, tasks, next);
      AliveInQueue(before, tasks, next, r);
      hide NodesOk, QueueOk;
      nodes := nodes[r := nodes[r].(state := newState, blocked := false)];
      ResetTimeout(r);
      assert nodes == before[r := nodes[r]];
      DeadlineOk(before, tasks, was, r, nodes[r]);
    }

    /** The task is done of its own accord. */
    method End(ghost before: seq<Node>, r: nat, error: bool)
      requires NodesOk(before, !orphan) && 0 < r < |before| && !before[r].done && !before[r].aborted && OnlyBusy(before, r)
      requires |nodes| == |before| && nodes == before[r := nodes[r]]
      requires nodes[r].parent == before[r].parent && nodes[r].children == before[r].children
      requires !nodes[r].done && !nodes[r].busy && nodes[r].deleted == before[r].deleted
      requires QueueOk(nodes, tasks, next)
      modifies `nodes, `wakeRequests
      ensures NodesOk(nodes, !orphan) && QueueOk(nodes, tasks, next) && NoneBusy(nodes)
      ensures |nodes| == |old(nodes)| && SameDeleted(before, nodes)
      ensures nodes[r].done && nodes[r].state == old(nodes)[r].state
      ensures nodes[r].state == STATE_ERROR ==> nodes[before[r].parent].childError
      ensures forall x :: 0 <= x < |before| && before[x].done ==> nodes[x].done
    {
      hide NodesOk, QueueOk, NoneBusy, SameDeleted, OnlyBusy, Tree, Hanging, Ended, Queue, Remembered;
      ghost var n := nodes[r].(done := true, error := nodes[r].error || error);
      StoppingTree(before, !orphan, r, n);
      EndedOk(before, !orphan, r, n);
      assert Grown(nodes) && nodes[r := n] == before[r := n];
      EndedQueue(nodes, r, n, tasks, next);
      assert nodes[r := n] == before[r := n];
      nodes := nodes[r := nodes[r].(done := true, error := nodes[r].error || error)];
      ErrorIsNoted(nodes, r, nodes[r].parent);
      OnStopped(r, {});
      nodes := nodes[r := nodes[r].(blocked := true)];
    }

    /** A task with a pending error ends. */
    method Fault(r: nat)
      requires Valid() && NoneBusy(nodes) && r in tasks && !nodes[r].done
      modifies `nodes, `wakeRequests
      ensures Valid() && NoneBusy(nodes) && |nodes| == |old(nodes)|
      ensures nodes[r].done && nodes[r].state == STATE_ERROR && Undone(nodes) < Undone(old(nodes))
      ensures r < |old(nodes)| && old(nodes)[r].parent < |nodes| && nodes[old(nodes)[r].parent].childError
    {
      ghost var before := nodes;
      nodes := nodes[r := nodes[r].(state := STATE_ERROR, blocked := true)];
      FlagsKeepQueue(before, nodes, tasks, next);
      End(before, r, true);
      LogKept(before, nodes, deletions);
      assert r in Undone(before) && r !in Undone(nodes);
    }

    /** One step of the scheduler: a task with a pending error ends without
        running. The result says whether the task's own turn was used. */
    method Step(r: nat, turn: Turn) returns (used: bool, ghost entry: seq<Node>)
      requires Valid() && NoneBusy(nodes) && r in tasks
      modifies `nodes, `tasks, `next, `now, `timeoutChanges, `wakeRequests, `twice, `orphan
      ensures Valid() && NoneBusy(nodes) && old(tasks) <= tasks
      ensures running == old(running) && deletions == old(deletions) && (old(twice) ==> twice) && (old(orphan) ==> orphan)
      ensures used <==> !old(nodes)[r].done && !old(nodes)[r].error
      ensures used ==> r < |nodes| && if nodes[r].aborted then nodes[r].done else
                Moved(nodes[r], if OwnTurn(old(nodes)[r], old(now)) then turn.result else STATE_START)
      ensures old(nodes)[r].done ==> nodes == old(nodes)
      ensures !old(nodes)[r].done && old(nodes)[r].error ==>
                nodes[r].done && nodes[r].state == STATE_ERROR && Undone(nodes) < Undone(old(nodes))
                && r < |old(nodes)| && old(nodes)[r].parent < |nodes| && nodes[old(nodes)[r].parent].childError
      ensures used && !OwnTurn(old(nodes)[r], old(now)) && !old(nodes)[r].aborted ==>
        tasks == old(tasks) && now == old(now) && nodes == old(nodes)[r := Started(old(nodes)[r], now)]
      ensures used ==> r < |old(nodes)| && Entered(old(nodes), old(tasks), old(now), old(next), r, turn, entry)
    {
      entry := nodes;
      if nodes[r].done {
        assert nodes == nodes[r := nodes[r].(blocked := true)];
        nodes := nodes[r := nodes[r].(blocked := true)];
        used := false;
      } else if nodes[r].error {
        Fault(r);
        used := false;
      } else {
        entry := Run(r, turn);
        used := true;
      }
    }

    /** The code of the task was entered with its deadline gone if that had come.
        If it did nothing but block, the task is as it was then, and blocked. */
    predicate Entered(n: seq<Node>, t: seq<nat>, time: int, x: Option<nat>, r: nat, turn: Turn, entry: seq<Node>)
      requires r < |n|
      reads this
    {
      && entry == AtEntry(n[r := n[r].(busy := true)], r, time)
      && (OwnTurn(n[r], time) && !n[r].aborted && turn == Turn([], STATE_BLOCKED) ==>
            && nodes == AtEntry(n, r, time)[r := AtEntry(n, r, time)[r].(busy := false, blocked := true)]
            && tasks == t && now == time && (LimitReached(n[r], time) || next == x))
    }

    /** After its first step. */
    static function Started(n: Node, now: int): Node {
      var m := n.(busy := false, blocked := false, state := STATE_START);
      m.(timeoutTime := Deadline(m, now))
    }

    /** A task that a turn brought to this state. */
    static predicate Moved(n: Node, newState: int) {
      if newState == STATE_BLOCKED then n.blocked
      else n.state == newState && n.done == n.blocked == (newState in {STATE_DONE, STATE_ERROR})
    }

    /** The task's own turn. A task that was aborted meanwhile is done when it
        is over; any other is blocked, or in the state it returned. */
    method Run(r: nat, turn: Turn) returns (ghost entry: seq<Node>)
      requires Valid() && NoneBusy(nodes) && r in tasks && !nodes[r].done
      modifies `nodes, `tasks, `next, `now, `timeoutChanges, `wakeRequests, `twice, `orphan
      ensures Valid() && NoneBusy(nodes) && old(tasks) <= tasks && |old(nodes)| <= |nodes|
      ensures running == old(running) && deletions == old(deletions) && (old(twice) ==> twice) && (old(orphan) ==> orphan)
      ensures nodes[r].aborted ==> nodes[r].done
      ensures nodes[r].aborted || Moved(nodes[r], if OwnTurn(old(nodes)[r], old(now)) then turn.result else STATE_START)
      ensures !OwnTurn(old(nodes)[r], old(now)) && !old(nodes)[r].aborted ==>
        tasks == old(tasks) && now == old(now) && nodes == old(nodes)[r := Started(old(nodes)[r], now)]
      ensures r < |old(nodes)| && Entered(old(nodes), old(tasks), old(now), old(next), r, turn, entry)
    {
      hide NodesOk, QueueOk, LogOk, Distinct, Later, NoneBusy, OnlyBusy, SameDeleted, Hanging;
      ghost var start := nodes;
      QueueOkMeans(nodes, tasks, next);
      EnterStep(r);
      ghost var before := nodes;
      var newState;
      newState, entry := Process(r, turn);
      ghost var after := nodes;
      StillBusy(before, after, !orphan, r);
      Conclude(r, newState);
      LogKept(after, nodes, deletions);
      RestFacts(nodes, !orphan, r);
      if !OwnTurn(start[r], old(now)) && !start[r].aborted {
        assert after == start[r := start[r].(busy := true)];
        assert nodes == start[r := Started(start[r], now)];
      }
      if OwnTurn(start[r], old(now)) && !start[r].aborted && turn == Turn([], STATE_BLOCKED) {
        OnlyBlocks(start, before, after, nodes, r, old(now));
      }
    }

    method EnterStep(r: nat)
      requires Valid() && NoneBusy(nodes) && r in tasks && !nodes[r].done
      modifies `nodes
      ensures Valid() && 0 < r < |nodes| && OnlyBusy(nodes, r)
      ensures nodes == old(nodes)[r := old(nodes)[r].(busy := true)]
      ensures nodes[r].busy && OwnTurn(nodes[r], now) == OwnTurn(old(nodes)[r], now)
    {
      TouchOk(nodes, !orphan, r, nodes[r].(busy := true));
      FlagsKeepQueue(nodes, nodes[r := nodes[r].(busy := true)], tasks, next);
      LogKept(nodes, nodes[r := nodes[r].(busy := true)], deletions);
      hide NodesOk, QueueOk, LogOk, Distinct;
      nodes := nodes[r := nodes[r].(busy := true)];
    }

    // --------------------------------------------------------------- RunTasks

    /** Between steps. */
    ghost predicate Resting()
      reads this
    {
      Valid() && NoneBusy(nodes)
    }

    twostate predicate Grew()
      reads this
    {
      && old(tasks) <= tasks && running == old(running) && deletions == old(deletions)
      && (old(twice) ==> twice) && (old(orphan) ==> orphan)
    }

    /** Steps the task at a place of the queue until it is blocked. The script holds
        the turns of the tasks' own code in the order they come, the first ones
        already used. */
    method RunTask(place: nat, script: seq<Turn>, start: nat)
      returns (used: nat, finished: bool, didRun: bool, ghost trace: seq<Stage>)
      requires Resting() && place < |tasks| && start <= |script|
      modifies `nodes, `tasks, `next, `now, `timeoutChanges, `wakeRequests, `twice, `orphan
      ensures Resting() && Grew() && start <= used <= |script|
      ensures tasks[place] < |nodes| && (finished ==> nodes[tasks[place]].blocked)
      ensures didRun ==> used > start || |Undone(nodes)| < |Undone(old(nodes))|
      ensures old(nodes)[old(tasks)[place]].blocked ==> finished && !didRun
      ensures !didRun ==> used == start && Unchanged(old(nodes), old(tasks), old(next), old(deletions))
      ensures Chain(trace, script, start, used, old(nodes), nodes) && (didRun <==> trace != [])
      ensures forall k :: 0 <= k < |trace| ==> trace[k].place == place
      ensures trace != [] ==> trace[|trace| - 1].queue == tasks
    {
      hide NodesOk, QueueOk, LogOk, Distinct, NoneBusy, Chain, StageOk;
      used, finished, didRun, trace := start, true, false, [];
      ghost var before := nodes;
      var t := tasks[place];
      UnblockedIsUndone(nodes, !orphan, tasks, next, t);
      NothingChained(script, start, nodes);
      while !nodes[t].blocked
        invariant Resting() && Grew() && start <= used <= |script| && tasks[place] == t < |nodes|
        invariant Chain(trace, script, start, used, before, nodes) && (didRun <==> trace != [])
        invariant forall k :: 0 <= k < |trace| ==> trace[k].place == place
        invariant trace != [] ==> trace[|trace| - 1].queue == tasks
        invariant didRun ==> !old(nodes)[t].blocked && (used > start || |Undone(nodes)| < |Undone(old(nodes))|)
        invariant !didRun ==> used == start && Unchanged(old(nodes), old(tasks), old(next), old(deletions))
        decreases |script| - used, |Undone(nodes)|
      {
        if used == |script| && !nodes[t].error {
          return used, false, didRun, trace;
        }
        ghost var was, at, time := nodes, used, now;
        UnblockedIsUndone(nodes, !orphan, tasks, next, t);
        var turned, _ := Step(t, if used < |script| then script[used] else Turn([], STATE_BLOCKED));
        UnblockedIsUndone(nodes, !orphan, tasks, next, t);
        if turned {
          used := used + 1;
        } else {
          Fewer(Undone(nodes), Undone(was));
        }
        didRun := true;
        ghost var stage := Stage(place, at, time, was, nodes, tasks);
        StageIs(stage, script);
        ChainGrows(trace, stage, script, start, before);
        trace := trace + [stage];
      }
    }

    /** Steps every task that is not blocked, again and again, until a whole
        round finds none. Without enough turns the run is not finished. */
    method RunUntilBlocked(script: seq<Turn>) returns (used: nat, finished: bool, ghost trace: seq<Stage>)
      requires Resting()
      modifies `nodes, `tasks, `next, `now, `timeoutChanges, `wakeRequests, `twice, `orphan
      ensures Resting() && Grew()
      ensures finished ==> AllBlocked(nodes, tasks)
      ensures AllBlocked(old(nodes), old(tasks)) ==>
                finished && Unchanged(old(nodes), old(tasks), old(next), old(deletions))
      ensures Chain(trace, script, 0, used, old(nodes), nodes) && RoundRobin(trace)
      ensures trace != [] ==> AllBlockedIn(old(nodes), old(tasks), 0, trace[0].place)
    {
      hide NodesOk, QueueOk, LogOk, Distinct, NoneBusy, AllBlocked, Chain, RoundRobin, RoundEnds, AllBlockedIn;
      used, finished, trace := 0, true, [];
      var didRun := true;
      ghost var before, queue := nodes, tasks;
      NothingChained(script, 0, nodes);
      while didRun
        invariant Chain(trace, script, 0, used, before, nodes) && RoundRobin(trace)
        invariant trace != [] ==> AllBlockedIn(before, queue, 0, trace[0].place)
        invariant trace == [] ==> nodes == before && tasks == queue
        invariant trace != [] ==> RoundEnds(trace[|trace| - 1], nodes, tasks)
        invariant Resting() && Grew() && used <= |script|
        invariant !didRun ==> AllBlocked(nodes, tasks)
        invariant AllBlocked(old(nodes), old(tasks)) ==> Unchanged(old(nodes), old(tasks), old(next), old(deletions))
        decreases |script| - used, |Undone(nodes)|, didRun
      {
        ghost var round, was, start, onQueue := [], nodes, used, tasks;
        used, finished, didRun, round := RunRound(script, used);
        ChainsJoin(trace, round, script, 0, start, used, before, was, nodes);
        RoundsJoin(trace, round, was, onQueue);
        trace := trace + round;
        if !finished { return; }
      }
    }

    /** One round over the queue, which may grow meanwhile. */
    method RunRound(script: seq<Turn>, start: nat)
      returns (used: nat, finished: bool, didRun: bool, ghost trace: seq<Stage>)
      requires Resting() && start <= |script|
      modifies `nodes, `tasks, `next, `now, `timeoutChanges, `wakeRequests, `twice, `orphan
      ensures Resting() && Grew() && start <= used <= |script|
      ensures finished && !didRun ==> AllBlocked(nodes, tasks)
      ensures didRun ==> used > start || |Undone(nodes)| < |Undone(old(nodes))|
      ensures !didRun ==> used == start && Unchanged(old(nodes), old(tasks), old(next), old(deletions))
      ensures AllBlocked(old(nodes), old(tasks)) ==> finished && !didRun
      ensures Chain(trace, script, start, used, old(nodes), nodes) && RoundRobin(trace)
      ensures trace == [] ==> nodes == old(nodes) && tasks == old(tasks)
      ensures trace != [] ==> AllBlockedIn(old(nodes), old(tasks), 0, trace[0].place)
      ensures finished && trace != [] ==> RoundEnds(trace[|trace| - 1], nodes, tasks)
    {
      hide NodesOk, QueueOk, LogOk, Distinct, NoneBusy, Chain, RoundRobin, RoundAt, AllBlocked, AllBlockedIn;
      used, finished, didRun, trace := start, true, false, [];
      var i := 0;
      ghost var before, queue := nodes, tasks;
      NothingChained(script, start, nodes);
      RoundBegins(nodes, tasks);
      ghost var undone, idle := |Undone(nodes)|, AllBlocked(nodes, tasks);
      while i < |tasks|
        invariant Resting() && Grew() && start <= used <= |script| && i <= |tasks|
        invariant didRun ==> !idle && (used > start || |Undone(nodes)| < undone)
        invariant !didRun ==> used == start && Unchanged(old(nodes), old(tasks), old(next), old(deletions))
        invariant Chain(trace, script, start, used, before, nodes) && RoundRobin(trace) && (didRun <==> trace != [])
        invariant RoundAt(trace, before, queue, nodes, tasks, i)
        decreases |script| - used, |Undone(nodes)|, |tasks| - i
      {
        var ran;
        ghost var part, was, first, onQueue := [], nodes, used, tasks;
        used, finished, ran, part := RunTask(i, script, used);
        didRun := didRun || ran;
        ChainsJoin(trace, part, script, start, first, used, before, was, nodes);
        PartJoins(trace, part, before, queue, was, onQueue, nodes, tasks, i);
        if idle { StillIdle(trace, part, before, queue, was, onQueue, i); }
        trace := trace + part;
        if !finished { return; }
        i := i + 1;
      }
      QueueOkMeans(nodes, tasks, next);
      RoundOver(trace, before, queue, nodes, tasks);
    }

    /** Deletes the done tasks and takes them out of the queue. */
    method DeleteDone()
      requires Resting()
      modifies `nodes, `tasks, `next, `deletions
      ensures Resting() && Reaped(old(nodes), nodes, old(tasks))
      ensures Distinct(deletions) <==> Distinct(old(deletions)) && OnceIfDone(old(nodes), old(tasks))
      ensures tasks == Survivors(old(nodes), old(tasks))
      ensures deletions == old(deletions) + Finished(old(nodes), old(tasks))
    {
      hide NodesOk, QueueOk, LogOk, Distinct, OnceIfDone, Reaped, Survivors, Finished, Recalc, NoneBusy;
      ghost var before := nodes;
      ghost var was := next;
      QueueOkMeans(nodes, tasks, next);
      if !twice { DistinctIsOnce(nodes, tasks); }
      var recalc, kept := Reap();
      ReapedNodes(before, !orphan, nodes, tasks);
      ReapedLog(before, nodes, tasks, was, old(deletions));
      ReapedQueue(before, nodes, tasks, was);
      tasks := kept;
      if recalc {
        RecalcNextTimeout(None);
      }
    }

    method Reap() returns (recalc: bool, kept: seq<nat>)
      requires Queue(nodes, tasks)
      modifies `nodes, `next, `deletions
      ensures Reaped(old(nodes), nodes, tasks)
      ensures kept == Survivors(old(nodes), tasks)
      ensures deletions == old(deletions) + Finished(old(nodes), tasks)
      ensures recalc <==> old(next).Some? && old(next).value in Finished(old(nodes), tasks)
      ensures next == if recalc then None else old(next)
    {
      ghost var before := nodes;
      ghost var gone := [];
      recalc, kept := false, [];
      for i := 0 to |tasks|
        invariant Reaped(before, nodes, tasks[..i])
        invariant kept == Survivors(before, tasks[..i]) && gone == Finished(before, tasks[..i])
        invariant deletions == old(deletions) + gone
        invariant recalc <==> old(next).Some? && old(next).value in gone
        invariant next == if recalc then None else old(next)
      {
        var t := tasks[i];
        ReapStep(before, nodes, tasks, i);
        if nodes[t].done {
          if next == Some(t) {
            next := None;
            recalc := true;
          }
          nodes := nodes[t := nodes[t].(deleted := true)];
          deletions := deletions + [t];
          gone := gone + [t];
        } else {
          kept := kept + [t];
        }
      }
      assert tasks[..|tasks|] == tasks;
    }

    /** RunTasks. When it returns, every task left is blocked and not done, in
        the order of before; each task that was done at the pause was deleted,
        once. The queue and the tasks at the pause are ghost results. */
    method RunTasks(script: seq<Turn>, inDestructor: bool)
      returns (used: nat, finished: bool, ghost queue: seq<nat>, ghost paused: seq<Node>, ghost trace: seq<Stage>)
      requires Valid() && (!running ==> NoneBusy(nodes))
      modifies this
      ensures old(running) ==> !finished && Unchanged(old(nodes), old(tasks), old(next), old(deletions))
      ensures !old(running) ==> Resting()
      ensures finished ==>
        && !running && old(tasks) <= queue && Queue(paused, queue)
        && tasks == Survivors(paused, queue) && deletions == old(deletions) + Finished(paused, queue)
        && Reaped(paused, nodes, queue) && Quiet(nodes, tasks)
      ensures old(twice) ==> twice
      ensures finished ==> (Distinct(deletions) <==> Distinct(old(deletions)) && OnceIfDone(paused, queue))
      ensures !twice ==> Distinct(queue) && Distinct(deletions)
      ensures !old(running) && AllBlocked(old(nodes), old(tasks)) ==>
        finished && queue == old(tasks) && paused == old(nodes)
      ensures !old(running) ==> Chain(trace, script, 0, used, old(nodes), paused) && RoundRobin(trace)
      ensures !old(running) && trace != [] ==> AllBlockedIn(old(nodes), old(tasks), 0, trace[0].place)
    {
      hide NodesOk, QueueOk, LogOk, Distinct, OnceIfDone, Reaped, Survivors, Finished, Quiet, NoneBusy, Chain, RoundRobin;
      queue, paused, trace := tasks, nodes, [];
      if running {
        return 0, false, queue, paused, trace;
      }
      running := true;
      QueueOkMeans(nodes, tasks, next);
      var previous := NextTaskTimeout();
      used, finished, trace := RunUntilBlocked(script);
      queue, paused := tasks, nodes;
      if !finished {
        return;
      }
      ghost var was := next;
      DeleteDone();
      SurvivorsQuiet(paused, nodes, queue, was);
      QueueOkMeans(nodes, tasks, next);
      if !inDestructor {
        CheckForTimeoutChange(previous);
      }
      running := false;
    }

    /** PollTasks: the task that is due, if any, is woken. */
    method PollTasks()
      requires Valid()
      modifies `nodes, `wakeRequests
      ensures Went()
      ensures next.Some? && old(TimedOut(next.value)) ==> nodes[next.value].blocked == old(nodes)[next.value].done
      ensures !(next.Some? && old(TimedOut(next.value))) ==> nodes == old(nodes)
      ensures next.Some? ==> next.value < |old(nodes)|
      ensures next.Some? ==>
        var n := old(nodes)[next.value];
        nodes == if n.timeoutSeconds != 0 && n.timeoutTime != 0 && n.timeoutTime <= now
                 then old(nodes)[next.value := n.(blocked := n.done)] else old(nodes)
      ensures next.None? ==> nodes == old(nodes)
    {
      QueueOkMeans(nodes, tasks, next);
      var oldTimeoutTask := None;
      while next.Some? && oldTimeoutTask != next && TimedOut(next.value)
        invariant oldTimeoutTask.None? ==> nodes == old(nodes)
        invariant oldTimeoutTask.Some? ==> oldTimeoutTask == next && old(TimedOut(next.value))
        invariant Went() && next == old(next) && (next.Some? ==> next.value < |old(nodes)| == |nodes|)
        invariant oldTimeoutTask.Some? ==>
          nodes == old(nodes)[next.value := old(nodes)[next.value].(blocked := old(nodes)[next.value].done)]
        decreases oldTimeoutTask.None?
      {
        oldTimeoutTask := next;
        Wake(next.value);
        wakeRequests := wakeRequests + 1;
      }
    }

    predicate Unchanged(n: seq<Node>, t: seq<nat>, x: Option<nat>, d: seq<nat>)
      reads this
    {
      nodes == n && tasks == t && next == x && deletions == d
    }

    /** Every task is aborted from the top. All of them end exactly when the tree
        was tidy. */
    method AbortEverything()
      requires Resting()
      modifies `nodes, `wakeRequests
      ensures Resting() && |nodes| == |old(nodes)|
      ensures (forall x :: 0 < x < |nodes| ==> nodes[x].done) <==> Hanging(old(nodes))
      ensures Hanging(old(nodes)) ==> AllBlocked(nodes, tasks)
      ensures nodes == Swept(old(nodes), old(nodes)[0].children)
    {
      SweptFromTop(nodes, !orphan, tasks, next, deletions);
      AbortAllChildren(0, {});
    }

    /** The destructor of the runner: in a tidy tree every task is aborted, none of
        them runs, and all that were started are deleted. */
    method Destroy()
      requires Resting() && !running
      modifies this
      ensures Resting()
      ensures Hanging(old(nodes)) ==> tasks == [] && deletions == old(deletions) + old(tasks)
      ensures Hanging(old(nodes)) ==> forall x :: 0 < x < |nodes| ==> nodes[x].done
    {
      ghost var tidy := Hanging(nodes);
      AbortEverything();
      if tidy { AllFinished(nodes, tasks); }
      var used, finished, queue, paused, trace := RunTasks([], true);
    }
  }

  /** It can come to that: a task made under a task that was aborted outlives the
      abort of everything. */
  method OutliveAbort(runner: TaskRunner) returns (c: nat)
    requires runner.Resting()
    modifies runner
    ensures runner.Resting() && 0 < c < |runner.nodes| && !runner.nodes[c].done && runner.nodes[runner.nodes[c].parent].done
  {
    c := MakeOrphan(runner);
    ghost var all := runner.nodes;
    OrphanIsMissed(all, c);
    runner.AbortEverything();
  }

  lemma OrphanIsMissed(nodes: seq<Node>, c: nat)
    requires Grown(nodes) && 0 < c < |nodes| && !nodes[c].done && c !in nodes[0].children
    requires nodes[nodes[c].parent].done
    ensures var after := Swept(nodes, nodes[0].children); !after[c].done && after[c].parent == nodes[c].parent && after[nodes[c].parent].done
  {
    var roots, p := nodes[0].children, nodes[c].parent;
    assert !Reached(nodes, roots, p);
    assert Swept(nodes, roots)[c] == SweptNode(nodes, roots, c) && Swept(nodes, roots)[p] == SweptNode(nodes, roots, p);
  }

  method MakeOrphan(runner: TaskRunner) returns (c: nat)
    requires runner.Resting()
    modifies runner
    ensures runner.Resting() && Grown(runner.nodes) && 0 < c < |runner.nodes| && !runner.nodes[c].done
    ensures c !in runner.nodes[0].children && runner.nodes[runner.nodes[c].parent].done
  {
    var p := |runner.nodes|;
    runner.Create(0);
    ghost var before := runner.nodes;
    runner.Kill(p, true);
    hide QueueOk, LogOk, Distinct, Hanging, MarkedAreBusy;
    assert Stops(before, {p}, p) && runner.nodes[p] == SweptNode(before, {p}, p);
    assert 0 !in runner.nodes[0].children;
    c := |runner.nodes|;
    assert c !in runner.nodes[0].children;
    runner.Create(p);
  }

  predicate OnlyBusy(nodes: seq<Node>, r: nat) {
    forall x :: 0 <= x < |nodes| && x != r ==> !nodes[x].busy
  }

  /** The same as QueueKept when no deadline changes and no task goes back to
      its initial state. */
  lemma FlagsKeepQueue(before: seq<Node>, after: seq<Node>, tasks: seq<nat>, next: Option<nat>)
    requires QueueOk(before, tasks, next) && |before| == |after|
    requires forall x :: 0 <= x < |before| ==>
               && after[x].timeoutTime == before[x].timeoutTime && after[x].deleted == before[x].deleted
               && (before[x].done ==> after[x].done)
               && (after[x].state == before[x].state || (x in tasks && after[x].state != STATE_INIT))
    ensures QueueOk(after, tasks, next)
  {
  }

  /** The abort of all children of the runner ends every task of a tidy tree. */
  lemma SweptFromTop(nodes: seq<Node>, tidy: bool, tasks: seq<nat>, next: Option<nat>, deletions: seq<nat>)
    requires NodesOk(nodes, tidy) && QueueOk(nodes, tasks, next) && LogOk(nodes, deletions) && NoneBusy(nodes)
    ensures var after := Swept(nodes, nodes[0].children);
            && NodesOk(after, tidy) && QueueOk(after, tasks, next) && LogOk(after, deletions) && NoneBusy(after)
            && ((forall x :: 0 < x < |after| ==> after[x].done) <==> Hanging(nodes))
            && (Hanging(nodes) ==> AllBlocked(after, tasks))
  {
    var after := Swept(nodes, nodes[0].children);
    SweptOk(nodes, tidy, nodes[0].children);
    QueueKept(nodes, after, tasks, next);
    SweepFromTopExactlyWhen(nodes);
    LogKept(nodes, after, deletions);
    if Hanging(nodes) { DoneAreBlocked(after, tidy, tasks, next); }
    hide NodesOk, QueueOk, LogOk, Hanging, AllBlocked;
  }

  lemma DoneAreBlocked(nodes: seq<Node>, tidy: bool, tasks: seq<nat>, next: Option<nat>)
    requires NodesOk(nodes, tidy) && QueueOk(nodes, tasks, next) && forall x :: 0 < x < |nodes| ==> nodes[x].done
    ensures AllBlocked(nodes, tasks)
  {
  }

  predicate AllBlocked(nodes: seq<Node>, tasks: seq<nat>)
  {
    Queue(nodes, tasks) && forall i :: 0 <= i < |tasks| ==> nodes[tasks[i]].blocked
  }

  predicate Quiet(nodes: seq<Node>, tasks: seq<nat>) {
    && Queue(nodes, tasks)
    && forall i :: 0 <= i < |tasks| ==> nodes[tasks[i]].blocked && !nodes[tasks[i]].done && !nodes[tasks[i]].deleted
  }

  lemma SurvivorsQuiet(paused: seq<Node>, nodes: seq<Node>, queue: seq<nat>, next: Option<nat>)
    requires AllBlocked(paused, queue) && Reaped(paused, nodes, queue) && QueueOk(paused, queue, next)
    ensures Quiet(nodes, Survivors(paused, queue))
  {
    var kept := Survivors(paused, queue);
    SurvivorsAre(paused, queue);
    forall i | 0 <= i < |kept|
      ensures 0 < kept[i] < |nodes| && nodes[kept[i]].blocked && !nodes[kept[i]].done && !nodes[kept[i]].deleted
    {
      assert kept[i] in kept;
    }
  }

  lemma Fewer(a: set<nat>, b: set<nat>)
    requires a < b
    ensures |a| < |b|
  {
    var x :| x in b && x !in a;
    Subset(a, b - {x});
  }

  /** Survivors are the tasks that are not done, the others are finished. */
  lemma {:induction false} SurvivorsAre(nodes: seq<Node>, tasks: seq<nat>)
    requires Queue(nodes, tasks)
    ensures forall x :: x in Survivors(nodes, tasks) <==> x in tasks && !nodes[x].done
    ensures forall x :: x in Finished(nodes, tasks) <==> x in tasks && nodes[x].done
    ensures Distinct(tasks) ==> Distinct(Survivors(nodes, tasks)) && Distinct(Finished(nodes, tasks))
  {
    if tasks != [] {
      var n := |tasks| - 1;
      SurvivorsAre(nodes, tasks[..n]);
      assert tasks == tasks[..n] + [tasks[n]];
      if Distinct(tasks) {
        DistinctSnoc(tasks[..n], tasks[n]);
        DistinctSnoc(Survivors(nodes, tasks[..n]), tasks[n]);
        DistinctSnoc(Finished(nodes, tasks[..n]), tasks[n]);
        hide Distinct;
        assert Survivors(nodes, tasks[..n]) + [] == Survivors(nodes, tasks[..n]);
        assert Finished(nodes, tasks[..n]) + [] == Finished(nodes, tasks[..n]);
      }
    }
  }

  /** It can come to that: a task that is started twice before its first step, and
      then aborted, is deleted twice. */
  method StartTwice(runner: TaskRunner) returns (t: nat)
    requires runner.Resting() && !runner.running && runner.tasks == []
    modifies runner
    ensures runner.deletions == old(runner.deletions) + [t, t]
  {
    t := QueueTwice(runner);
    hide *;
    TwoFinished(runner.nodes, runner.tasks, t);
    var used, finished, queue, paused, trace := runner.RunTasks([], false);
  }

  method QueueTwice(runner: TaskRunner) returns (t: nat)
    requires runner.Resting() && !runner.running && runner.tasks == []
    modifies runner
    ensures runner.Resting() && !runner.running && runner.deletions == old(runner.deletions)
    ensures 0 < t < |runner.nodes| && runner.tasks == [t, t] && runner.nodes[t].done && runner.nodes[t].blocked
  {
    hide QueueOk, LogOk, Distinct, Linked, Remembered;
    t := |runner.nodes|;
    runner.Create(0);
    runner.Begin(t);
    runner.Begin(t);
    assert runner.tasks == [t, t];
    ghost var before := runner.nodes;
    assert runner.nodes[t] == NewTask(0);
    runner.Kill(t, true);
    assert Stops(before, {t}, t) && runner.nodes[t] == SweptNode(before, {t}, t);
  }

  lemma TwoFinished(nodes: seq<Node>, tasks: seq<nat>, t: nat)
    requires 0 < t < |nodes| && nodes[t].done && nodes[t].blocked && tasks == [t, t]
    ensures Queue(nodes, tasks) && AllBlocked(nodes, tasks) && Finished(nodes, tasks) == [t, t]
  {
    assert [t, t][..1] == [t];
    assert Finished(nodes, [t]) == [t];
  }

  /** The one case in which an update leaves the cached task with a deadline
      that is not the earliest, in a run: two tasks are due after one and after
      two seconds; the limit of the first is set to three; the runner goes on to
      wait for the first, past the deadline of the second. */
  method LateDeadlineIsKept(time: nat) returns (runner: TaskRunner)
    ensures fresh(runner) && runner.Resting() && !runner.running
    ensures runner.tasks == [1, 2] && Queue(runner.nodes, runner.tasks) && runner.next == Some(1)
    ensures |runner.nodes| == 3 && Pending(runner.nodes[1]) && Pending(runner.nodes[2])
    ensures runner.nodes[2].timeoutTime < runner.NextTaskTimeout() && !Earliest(runner.nodes, runner.tasks, runner.next)
  {
    runner := TwoStarted(time);
    runner.Retime(2, 2, false);
    runner.Retime(1, 1, false);
    assert runner.next == Some(1) && Earliest(runner.nodes, [1, 2], Some(1));
    runner.Retime(1, 3, false);
    assert [1, 2][1] == 2;
  }

  method TwoStarted(time: nat) returns (runner: TaskRunner)
    ensures fresh(runner) && runner.Resting() && !runner.running && runner.now == time && runner.tasks == [1, 2]
    ensures |runner.nodes| == 3
    ensures forall t :: 1 <= t <= 2 ==> runner.nodes[t] == TaskRunner.Started(NewTask(0), time)
  {
    hide NodesOk, QueueOk, LogOk, Distinct, Later, NoneBusy;
    runner := new TaskRunner(time);
    runner.Create(0);
    runner.Create(0);
    runner.Begin(1);
    runner.Begin(2);
    var turn := Turn([], STATE_BLOCKED);
    var first, _ := runner.Step(1, turn);
    var second, _ := runner.Step(2, turn);
  }

  /** A limit of s seconds, in a run from a new runner: the task blocks; a poll
      before its deadline leaves it blocked, a poll at its deadline, or later, wakes
      it; and when its code runs next the deadline is gone. */
  method LimitIsKept(time: nat, s: nat, early: int, late: int)
    returns (runner: TaskRunner, ghost polledEarly: Node, ghost polledLate: Node, ghost entry: seq<Node>)
    requires s > 0 && early < time + s * 10_000_000 <= late
    ensures polledEarly.blocked && !polledEarly.done && !polledLate.blocked
    ensures polledEarly.timeoutTime == polledLate.timeoutTime == time + s * 10_000_000
    ensures fresh(runner) && runner.Resting() && runner.tasks == [1] && |entry| == 2
    ensures entry[1].timeoutTime == 0 && entry[1].timeoutSeconds == s && entry[1].busy && !entry[1].blocked
  {
    hide NodesOk, QueueOk, LogOk, Distinct, Later;
    runner := OneLimited(time, s);
    runner.Perform(Pass(early));
    runner.PollTasks();
    polledEarly := runner.nodes[1];
    runner.Perform(Pass(late));
    runner.PollTasks();
    polledLate := runner.nodes[1];
    var used;
    used, entry := runner.Step(1, Turn([], STATE_BLOCKED));
  }

  method OneLimited(time: nat, s: nat) returns (runner: TaskRunner)
    requires s > 0
    ensures fresh(runner) && runner.Resting() && runner.tasks == [1] && runner.next == Some(1) && runner.now == time
    ensures |runner.nodes| == 2
    ensures var n := runner.nodes[1];
            n.blocked && !n.done && !n.aborted && !n.error && n.state == STATE_START && n.timeoutSeconds == s
            && n.timeoutTime == time + s * 10_000_000
  {
    hide NodesOk, QueueOk, LogOk, Distinct, Later, NoneBusy;
    runner := new TaskRunner(time);
    runner.Create(0);
    runner.Begin(1);
    var turn := Turn([], STATE_BLOCKED);
    var first, _ := runner.Step(1, turn);
    runner.Retime(1, s, false);
    assert runner.next == Some(1);
    var second, _ := runner.Step(1, turn);
  }

  /** Two survivors keep their order. */
  lemma {:induction false} SurvivorsInOrder(nodes: seq<Node>, tasks: seq<nat>, i: nat, j: nat)
    requires Queue(nodes, tasks) && i < j < |Survivors(nodes, tasks)|
    ensures exists k, m :: 0 <= k < m < |tasks| && tasks[k] == Survivors(nodes, tasks)[i] && tasks[m] == Survivors(nodes, tasks)[j]
  {
    var n := |tasks| - 1;
    var s := Survivors(nodes, tasks[..n]);
    if j < |s| {
      SurvivorsInOrder(nodes, tasks[..n], i, j);
      var k, m :| 0 <= k < m < n && tasks[..n][k] == s[i] && tasks[..n][m] == s[j];
      assert tasks[k] == Survivors(nodes, tasks)[i] && tasks[m] == Survivors(nodes, tasks)[j];
    } else {
      SurvivorsAre(nodes, tasks[..n]);
      assert s[i] in tasks[..n];
      var k :| 0 <= k < n && tasks[..n][k] == s[i];
      assert tasks[k] == Survivors(nodes, tasks)[i] && tasks[n] == Survivors(nodes, tasks)[j];
    }
  }

  lemma {:induction false} SameQueue(a: seq<Node>, b: seq<Node>, tasks: seq<nat>)
    requires Queue(a, tasks) && |a| == |b|
    requires forall x :: 0 <= x < |a| ==> a[x].done == b[x].done
    ensures Survivors(a, tasks) == Survivors(b, tasks) && Finished(a, tasks) == Finished(b, tasks)
  {
    if tasks != [] {
      SameQueue(a, b, tasks[..|tasks| - 1]);
    }
  }

  lemma {:induction false} AllFinished(nodes: seq<Node>, tasks: seq<nat>)
    requires Queue(nodes, tasks) && forall i :: 0 <= i < |tasks| ==> nodes[tasks[i]].done
    ensures Survivors(nodes, tasks) == [] && Finished(nodes, tasks) == tasks
  {
    if tasks != [] {
      var n := |tasks| - 1;
      assert tasks == tasks[..n] + [tasks[n]];
      AllFinished(nodes, tasks[..n]);
    }
  }

  /** after is before with the finished tasks of the queue deleted. */
  predicate Reaped(before: seq<Node>, after: seq<Node>, tasks: seq<nat>) {
    && Queue(before, tasks) && |after| == |before|
    && forall x :: 0 <= x < |after| ==>
         after[x] == before[x].(deleted := before[x].deleted || x in Finished(before, tasks))
  }

  lemma ReapStep(before: seq<Node>, nodes: seq<Node>, tasks: seq<nat>, i: nat)
    requires Queue(before, tasks) && i < |tasks| && Reaped(before, nodes, tasks[..i])
    ensures var t := tasks[i];
            if nodes[t].done then
              && Survivors(before, tasks[..i + 1]) == Survivors(before, tasks[..i])
              && Finished(before, tasks[..i + 1]) == Finished(before, tasks[..i]) + [t]
              && Reaped(before, nodes[t := nodes[t].(deleted := true)], tasks[..i + 1])
            else
              && Survivors(before, tasks[..i + 1]) == Survivors(before, tasks[..i]) + [t]
              && Finished(before, tasks[..i + 1]) == Finished(before, tasks[..i])
              && Reaped(before, nodes, tasks[..i + 1])
  {
    assert tasks[..i + 1][..i] == tasks[..i];
    assert nodes[tasks[i]].done == before[tasks[i]].done;
  }

  lemma ReapedNodes(before: seq<Node>, tidy: bool, after: seq<Node>, tasks: seq<nat>)
    requires NodesOk(before, tidy) && NoneBusy(before) && Reaped(before, after, tasks)
    ensures NodesOk(after, tidy) && NoneBusy(after)
  {
    SurvivorsAre(before, tasks);
    forall p: nat, x: nat | p < |after|
      ensures x in after[p].children <==> 0 < x < |after| && after[x].parent == p && !after[x].done
    {
      assert x in before[p].children <==> 0 < x < |before| && before[x].parent == p && !before[x].done;
    }
  }

  lemma StoppingTree(before: seq<Node>, tidy: bool, r: nat, n: Node)
    requires NodesOk(before, tidy) && 0 < r < |before| && !before[r].done
    requires n.done && n.parent == before[r].parent && n.children == before[r].children
    ensures Tree(before[r := n], {r}) && Tree(before[r := n], {} + {r}) && Grown(before)
  {
    MarkedTree(before, {}, r, n);
    var none: set<nat> := {};
    assert none + {r} == {r};
  }

  lemma RestFacts(nodes: seq<Node>, tidy: bool, r: nat)
    requires NodesOk(nodes, tidy) && NoneBusy(nodes) && 0 < r < |nodes|
    ensures nodes[r].aborted ==> nodes[r].done
    ensures nodes[r].done ==> nodes[r].blocked
  {
  }

  /** What a task did in its turn leaves it the only one inside a step. */
  lemma OnlyBlocks(start: seq<Node>, before: seq<Node>, after: seq<Node>, end: seq<Node>, r: nat, now: int)
    requires r < |start| && before == start[r := start[r].(busy := true)] && after == TaskRunner.AtEntry(before, r, now)
    requires end == after[r := after[r].(busy := false, blocked := true)]
    ensures var e := TaskRunner.AtEntry(start, r, now); end == e[r := e[r].(busy := false, blocked := true)]
  {
  }

  lemma LaterItself(nodes: seq<Node>)
    ensures Later(nodes, nodes)
  {
  }

  lemma StillBusy(before: seq<Node>, after: seq<Node>, tidy: bool, r: nat)
    requires NodesOk(after, tidy) && Later(before, after) && 0 < r < |before| && before[r].busy && OnlyBusy(before, r)
    ensures |before| <= |after| && after[r].busy && !after[r].done && OnlyBusy(after, r)
  {
  }

  lemma AliveInQueue(nodes: seq<Node>, tasks: seq<nat>, next: Option<nat>, r: nat)
    requires QueueOk(nodes, tasks, next) && r in tasks
    ensures 0 < r < |nodes| && !nodes[r].deleted
  {
  }

  lemma QueueOkMeans(nodes: seq<Node>, tasks: seq<nat>, next: Option<nat>)
    requires QueueOk(nodes, tasks, next)
    ensures Queue(nodes, tasks) && (next.Some? ==> next.value in tasks && next.value < |nodes|)
    ensures forall t :: t in tasks ==> 0 < t < |nodes|
  {
  }

  lemma ReapedLog(before: seq<Node>, after: seq<Node>, tasks: seq<nat>, next: Option<nat>, log: seq<nat>)
    requires QueueOk(before, tasks, next) && LogOk(before, log) && Reaped(before, after, tasks)
    ensures LogOk(after, log + Finished(before, tasks))
    ensures Distinct(log + Finished(before, tasks)) <==> Distinct(log) && OnceIfDone(before, tasks)
  {
    SurvivorsAre(before, tasks);
    FinishedOnceExactlyWhen(before, tasks);
    DistinctAppend(log, Finished(before, tasks));
  }

  lemma DistinctAppend(a: seq<nat>, b: seq<nat>)
    requires forall x :: x in a ==> x !in b
    ensures Distinct(a + b) <==> Distinct(a) && Distinct(b)
  {
    var ab := a + b;
    if Distinct(ab) {
      assert forall i :: 0 <= i < |a| ==> a[i] == ab[i];
      assert forall i :: 0 <= i < |b| ==> b[i] == ab[|a| + i];
    }
    if Distinct(a) && Distinct(b) {
      forall i, j | 0 <= i < j < |ab|
        ensures ab[i] != ab[j]
      {
        if i < |a| <= j {
          assert a[i] in a && b[j - |a|] in b;
        }
      }
    }
  }

  /** No task that is done is in the queue twice. */
  predicate OnceIfDone(nodes: seq<Node>, tasks: seq<nat>)
    requires Queue(nodes, tasks)
  {
    forall i, j :: 0 <= i < j < |tasks| && nodes[tasks[i]].done ==> tasks[i] != tasks[j]
  }

  /** The exact law of deletion, for any queue: each finished task is deleted once
      exactly when no done task is queued twice. */
  lemma {:induction false} FinishedOnceExactlyWhen(nodes: seq<Node>, tasks: seq<nat>)
    requires Queue(nodes, tasks)
    ensures Distinct(Finished(nodes, tasks)) <==> OnceIfDone(nodes, tasks)
  {
    if tasks != [] {
      var n := |tasks| - 1;
      var t, front := tasks[n], tasks[..n];
      FinishedOnceExactlyWhen(nodes, front);
      SurvivorsAre(nodes, front);
      OnceMore(nodes, front, t);
      assert tasks == front + [t];
      DistinctSnoc(Finished(nodes, front), t);
      FinishedSnoc(nodes, front, t);
      hide *;
    }
  }

  lemma FinishedSnoc(nodes: seq<Node>, front: seq<nat>, t: nat)
    requires Queue(nodes, front) && 0 < t < |nodes|
    ensures Queue(nodes, front + [t])
    ensures Finished(nodes, front + [t]) == if nodes[t].done then Finished(nodes, front) + [t] else Finished(nodes, front)
  {
    assert (front + [t])[..|front|] == front;
    assert Finished(nodes, front) + [] == Finished(nodes, front);
  }

  lemma DistinctSnoc(a: seq<nat>, x: nat)
    ensures Distinct(a + [x]) <==> Distinct(a) && x !in a
  {
    if Distinct(a + [x]) {
      assert forall i :: 0 <= i < |a| ==> a[i] == (a + [x])[i] && (a + [x])[i] != (a + [x])[|a|];
    }
  }

  lemma OnceMore(nodes: seq<Node>, front: seq<nat>, t: nat)
    requires Queue(nodes, front) && 0 < t < |nodes|
    ensures Queue(nodes, front + [t])
    ensures OnceIfDone(nodes, front + [t]) <==> OnceIfDone(nodes, front) && (nodes[t].done ==> t !in front)
  {
    var all := front + [t];
    assert forall i :: 0 <= i < |front| ==> front[i] == all[i];
    assert all[|front|] == t;
  }

  lemma DistinctIsOnce(nodes: seq<Node>, tasks: seq<nat>)
    requires Queue(nodes, tasks) && Distinct(tasks)
    ensures OnceIfDone(nodes, tasks) && Distinct(Survivors(nodes, tasks))
  {
    SurvivorsAre(nodes, tasks);
  }

  lemma ReapedQueue(before: seq<Node>, after: seq<Node>, tasks: seq<nat>, next: Option<nat>)
    requires QueueOk(before, tasks, next) && Reaped(before, after, tasks)
    ensures var kept := Survivors(before, tasks);
            && Queue(after, kept)
            && QueueOk(after, kept, if next.Some? && next.value in Finished(before, tasks) then Recalc(after, kept, None) else next)
  {
    hide Survivors, Finished, Recalculated;
    var kept := Survivors(before, tasks);
    SurvivorsAre(before, tasks);
    forall i | 0 <= i < |kept|
      ensures kept[i] in tasks && !before[kept[i]].done && after[kept[i]] == before[kept[i]]
    {
      assert kept[i] in kept;
    }
    RecalcIsEarliest(after, kept, None, |kept|);
  }

  /** A step is over, and the abort of the busy task takes effect. */
  lemma AbortedOk(nodes: seq<Node>, tidy: bool, r: nat)
    requires NodesOk(nodes, tidy) && 0 < r < |nodes| && !nodes[r].done && nodes[r].aborted && OnlyBusy(nodes, r)
    ensures var idle := nodes[r := nodes[r].(busy := false)];
            && Tree(idle, {}) && NodesOk(Swept(idle, {r}), tidy) && NoneBusy(Swept(idle, {r})) && Swept(idle, {r})[r].done
  {
    var idle := nodes[r := nodes[r].(busy := false)];
    var after := Swept(idle, {r});
    SweptTree(idle, {r}, {});
    SweptHangs(idle, {r});
    assert Stops(idle, {r}, r);
    forall x: nat | x < |nodes|
      ensures after[x] == SweptNode(idle, {r}, x)
    {
    }
  }

  lemma EndedQueue(nodes: seq<Node>, r: nat, n: Node, tasks: seq<nat>, next: Option<nat>)
    requires Grown(nodes) && 0 < r < |nodes| && QueueOk(nodes, tasks, next)
    requires n == nodes[r].(done := true, error := n.error)
    ensures var ended := Ended(nodes[r := n], r);
            QueueOk(ended[r := ended[r].(blocked := true)], tasks, next)
  {
    var ended := Ended(nodes[r := n], r);
    forall x: nat | x < |nodes|
      ensures ended[x].timeoutTime == nodes[x].timeoutTime && ended[x].deleted == nodes[x].deleted
      ensures ended[x].state == nodes[x].state && (nodes[x].done ==> ended[x].done)
    {
      EndedNode(nodes[r := n], r, x);
    }
    FlagsKeepQueue(nodes, ended[r := ended[r].(blocked := true)], tasks, next);
  }

  lemma EndedTree(before: seq<Node>, tidy: bool, r: nat, n: Node)
    requires NodesOk(before, tidy) && 0 < r < |before| && !before[r].done
    requires n.parent == before[r].parent && n.children == before[r].children && n.done
    ensures var ended := Ended(before[r := n], r);
            Tree(ended, {}) && (tidy ==> Hanging(ended)) && MarkedAreBusy(ended)
  {
    var marked := before[r := n];
    MarkedTree(before, {}, r, n);
    HangsBut(before, r, n);
    SweptTree(marked, marked[r].children, {r});
    ForgottenTree(Swept(marked, marked[r].children), {}, r);
    EndedHangs(marked, {}, r);
  }

  lemma HangsBut(before: seq<Node>, r: nat, n: Node)
    requires Grown(before) && 0 < r < |before| && n.parent == before[r].parent && n.done
    ensures Grown(before[r := n]) && (Hanging(before) ==> HangingBut(before[r := n], r))
    ensures MarkedAreBusy(before) ==> MarkedAreBusy(before[r := n])
  {
  }

  lemma EndedOk(before: seq<Node>, tidy: bool, r: nat, n: Node)
    requires NodesOk(before, tidy) && 0 < r < |before| && !before[r].done && !before[r].aborted && OnlyBusy(before, r)
    requires n.parent == before[r].parent && n.children == before[r].children && n.deleted == before[r].deleted
    requires n.done && !n.busy
    ensures var ended := Ended(before[r := n], r);
            var after := ended[r := ended[r].(blocked := true)];
            && |ended| == |after| == |before| && after[r].done
            && NodesOk(after, tidy) && NoneBusy(after) && SameDeleted(before, after) && ended[r].state == n.state
            && forall x :: 0 <= x < |before| && before[x].done ==> after[x].done
  {
    var ended := Ended(before[r := n], r);
    EndedTree(before, tidy, r, n);
    EndedNode(before[r := n], r, r);
    forall x: nat | x < |before|
      ensures ended[x].parent == before[x].parent && !ended[x].busy && ended[x].deleted == before[x].deleted
      ensures before[x].done || x == r ==> ended[x].done
      ensures x > 0 && ended[x].done && x != r ==> ended[x].blocked
      ensures x == 0 ==> !ended[x].done
    {
      EndedNode(before[r := n], r, x);
    }
    BlockedOk(ended, tidy, r);
  }

  lemma BlockedOk(nodes: seq<Node>, tidy: bool, r: nat)
    requires Tree(nodes, {}) && (tidy ==> Hanging(nodes)) && MarkedAreBusy(nodes) && 0 < r < |nodes| && nodes[r].done
    requires NoneBusy(nodes) && !nodes[0].done
    requires forall x :: 0 < x < |nodes| && x != r && nodes[x].done ==> nodes[x].blocked
    requires forall x :: 0 <= x < |nodes| && nodes[x].deleted ==> nodes[x].done
    ensures NodesOk(nodes[r := nodes[r].(blocked := true)], tidy)
  {
  }

  lemma AbortNext(before: seq<Node>, stopping: set<nat>, p: nat, aborted: set<nat>, c: nat)
    requires Tree(before, stopping) && p < |before| && c in before[p].children
    ensures Tree(Swept(before, aborted), stopping) && 0 < c < |before|
    ensures |Undone(Swept(before, aborted))| <= |Undone(before)|
    ensures Swept(Swept(before, aborted), {c}) == Swept(before, aborted + {c})
  {
    assert Linked(before, stopping);
    assert 0 < c < |before|;
    SweptTree(before, aborted, stopping);
    Subset(Undone(Swept(before, aborted)), Undone(before));
    SweptInTurn(before, aborted, c);
  }

  lemma Subset(a: set<nat>, b: set<nat>)
    requires a <= b
    ensures |a| <= |b|
  {
    if a != b {
      var x :| x in b && x !in a;
      Subset(a, b - {x});
    }
  }

  lemma Smaller(a: set<nat>, x: nat)
    requires x in a
    ensures |a - {x}| < |a|
  {
  }

  lemma SweptBusy(nodes: seq<Node>, r: nat)
    requires Grown(nodes) && 0 < r < |nodes| && !nodes[r].done && nodes[r].busy
    ensures Swept(nodes, {r}) == nodes[r := nodes[r].(aborted := true)]
  {
    forall x: nat
      ensures Reached(nodes, {r}, x) <==> x == r
    {
      OnlyBusyReached(nodes, r, x);
    }
    forall x: nat | x < |nodes|
      ensures Swept(nodes, {r})[x] == nodes[r := nodes[r].(aborted := true)][x]
    {
      assert SweptNode(nodes, {r}, x).children == nodes[x].children;
    }
  }

  lemma {:induction false} OnlyBusyReached(nodes: seq<Node>, r: nat, x: nat)
    requires Grown(nodes) && 0 < r < |nodes| && !nodes[r].done && nodes[r].busy
    ensures Reached(nodes, {r}, x) <==> x == r
    decreases x
  {
    if 0 < x < |nodes| && x != r {
      OnlyBusyReached(nodes, r, nodes[x].parent);
    }
  }
}
