/** The promises of Send over whole runs: any number of threads, any
    interleaving, handlers that themselves Send, Post, Clear and Quit. */
module SendRuns {
  import opened Options
  import opened SendProtocol
  import opened SendSafety
  import opened SendWakeups

  ghost predicate Inv(st: State) {
    && Shaped(st)
    && LocksOk(st)
    && MessagesOk(st)
    && DirectOk(st)
    && EndsOk(st)
    && PlacesOk(st)
    && ReadyOk(st)
    && ListWakeOk(st)
    && ReadyWakeOk(st)
    && QueueWakeOk(st)
    && StopWakeOk(st)
    && TrafficOk(st)
    && OwedOk(st)
    && NestedOk(st)
    && SweepsOk(st)
  }

  lemma NothingPosted(f: Fate)
    ensures Holds([], map[], f)
  {
  }

  lemma InitialInv(n: nat)
    ensures Inv(Initial(n))
  {
    var st := Initial(n);
    assert st.handled + st.cleared == [];
    NothingPosted(Settled);
    assert Holds(st.handled + st.cleared, st.fates, Settled);
    forall t | 0 <= t < n
      ensures Holds(Waiting(st.lists[t]), st.fates, Queued(t))
      ensures Holds(Running(st.stacks[t]), st.fates, InHandler(t))
    {
      NothingPosted(Queued(t));
      NothingPosted(InHandler(t));
    }
  }

  lemma ActKeepsInv(st: State, t: nat, c: Choice)
    requires Inv(st) && Act(st, t, c).Some?
    ensures Inv(Act(st, t, c).value)
  {
    ActKeepsLocks(st, t, c);
    ActKeepsMessages(st, t, c);
    ActKeepsDirect(st, t, c);
    ActKeepsEnds(st, t, c);
    ActKeepsPlaces(st, t, c);
    ActKeepsReady(st, t, c);
    ActKeepsListWake(st, t, c);
    ActKeepsReadyWake(st, t, c);
    ActKeepsQueueWake(st, t, c);
    ActKeepsStopWake(st, t, c);
    ActKeepsTraffic(st, t, c);
    ActKeepsOwed(st, t, c);
    ActKeepsNested(st, t, c);
    ActKeepsSweeps(st, t, c);
  }

  // -------------------------------------------------------------------- runs

  /** The states of a run: it starts at rest, and some thread takes each step. */
  ghost predicate IsRun(run: seq<State>) {
    && run != []
    && (exists n: nat :: run[0] == Initial(n))
    && forall i :: 0 <= i < |run| - 1 ==> Follows(run[i], run[i + 1])
  }

  ghost predicate Follows(st: State, st': State) {
    Shaped(st) && exists t, c :: Act(st, t, c) == Some(st')
  }

  lemma {:induction false} RunInv(run: seq<State>, i: nat)
    requires IsRun(run) && i < |run|
    ensures Inv(run[i])
  {
    if i == 0 {
      var n: nat :| run[0] == Initial(n);
      InitialInv(n);
    } else {
      RunInv(run, i - 1);
      assert Follows(run[i - 1], run[i - 1 + 1]);
      var t, c :| Act(run[i - 1], t, c) == Some(run[i]);
      ActKeepsInv(run[i - 1], t, c);
    }
  }

  /** A Send that posted its message returns only after the message was handled
      exactly once or cleared exactly once, and never both. */
  lemma SendReturnsOnce(run: seq<State>, i: nat, t: nat, p: Posting, waited: bool, below: Stack)
    requires IsRun(run) && i < |run| && Shaped(run[i]) && t < |run[i].stacks|
    requires run[i].stacks[t] == Call(Sending(p, waited, Done), below)
    ensures p.sender == t && p.id < |run[i].posted| && run[i].posted[p.id] == p
    ensures Times(run[i].handled, p.id) + Times(run[i].cleared, p.id) == 1
    ensures forall u :: 0 <= u < |run[i].stacks| ==>
              Times(Waiting(run[i].lists[u]), p.id) == 0 && Times(Running(run[i].stacks[u]), p.id) == 0
  {
    var st := run[i];
    RunInv(run, i);
    assert Finished(st.stacks[t], st.ready);
    TimesAppend(st.handled, st.cleared, p.id);
  }

  /** No thread posts to itself: a Send to itself runs the handler at once. */
  lemma NeverToItself(run: seq<State>, i: nat, k: nat)
    requires IsRun(run) && i < |run| && k < |run[i].posted|
    ensures run[i].posted[k].sender != run[i].posted[k].target
  {
    RunInv(run, i);
  }

  /** A handler runs on the thread the message was sent to, and messages to one
      thread reach their handlers in the order of posting: when one is taken,
      no earlier one still waits. */
  lemma HandledInOrder(run: seq<State>, i: nat, t: nat, c: Choice, p: Posting)
    requires IsRun(run) && i < |run| && Shaped(run[i]) && Act(run[i], t, c).Some?
    requires Next(run[i], t, c).value.effect == Take(p)
    ensures p.target == t
    ensures forall q :: q in run[i].lists[t] ==> p.id <= q.id
    ensures p !in Act(run[i], t, c).value.lists[t]
  {
    RunInv(run, i);
  }

  /** When Clear returns, the list and the queue it went through have no entry
      that matches. */
  lemma ClearedCompletely(run: seq<State>, i: nat, t: nat, c: Choice, f: Frame, below: Stack)
    requires IsRun(run) && i < |run| && Shaped(run[i]) && t < |run[i].stacks|
    requires run[i].stacks[t] == Call(f, below) && f.Clearing?
    requires Act(run[i], t, c).Some? && Act(run[i], t, c).value.stacks[t] == below
    ensures var l := Act(run[i], t, c).value.lists[f.of]; forall q :: q in l ==> !f.pattern.Matches(q.key)
    ensures forall k :: k in Act(run[i], t, c).value.queues[f.of] ==> !f.pattern.Matches(k)
  {
    RunInv(run, i);
    ClearReturns(run[i], t, c, f, below);
    hide *;
    InvParts(run[i]);
    ClearLeavesNoMatch(run[i], t, c);
  }

  lemma ClearReturns(st: State, t: nat, c: Choice, f: Frame, below: Stack)
    requires Shaped(st) && t < |st.stacks| && st.stacks[t] == Call(f, below) && f.Clearing?
    requires Act(st, t, c).Some? && Act(st, t, c).value.stacks[t] == below
    ensures Next(st, t, c).value.effect == Purge(f.of, f.pattern)
  {
    hide Apply, Unmatched, Matched;
  }

  lemma InvParts(st: State)
    requires Inv(st)
    ensures Shaped(st) && LocksOk(st) && SweepsOk(st)
  {
  }

  // ---------------------------------------------------------------- liveness

  /** The thread can go on without a timeout and without user code calling
      anything: user code under way returns. */
  predicate CanGo(st: State, t: nat)
    requires Shaped(st)
  {
    Act(st, t, Go).Some?
  }

  predicate Ended(s: Stack) { s == Loop(LEnd) }

  /** Parked, and in the call of Wait. */
  predicate Waits(s: Stack) {
    s == Loop(LWait) || (s.Call? && s.top.Sending? && s.top.spc == Wait)
  }

  /** A thread that cannot go on is parked without a wake-up, or wants a lock
      that is taken, or has ended. It owns no lock and owes nobody a wake-up. */
  lemma StuckShape(st: State, t: nat)
    requires Inv(st) && t < |st.stacks| && !CanGo(st, t)
    ensures Inside(st.stacks[t], t).None?
    ensures !Waits(st.stacks[t]) && !Ended(st.stacks[t]) ==> exists u :: 0 <= u < |st.stacks| && st.locks[u].Some?
    ensures Waits(st.stacks[t]) ==> !st.wakes[t]
    ensures forall v :: !Alerting(st.stacks[t], v) && !Nudging(st.stacks[t], v)
    ensures forall id :: !Notifying(st.stacks[t], id)
  {
    InvParts(st);
    hide Inv, LocksOk, SweepsOk;
    StuckOwes(st, t);
    hide Inside, Alerting, Nudging, Notifying, Apply;
    var s := st.stacks[t];
    if s.Call? && s.top.Calling? {
      assert st.locks[s.top.to].Some?;
    } else if s.Call? && s.top.Queueing? {
      assert st.locks[s.top.to].Some?;
    }
  }

  lemma StuckOwes(st: State, t: nat)
    requires Shaped(st) && t < |st.stacks| && !CanGo(st, t)
    ensures Inside(st.stacks[t], t).None?
    ensures forall v :: !Alerting(st.stacks[t], v) && !Nudging(st.stacks[t], v)
    ensures forall id :: !Notifying(st.stacks[t], id)
  {
    hide Apply, StackOk, ListOk;
  }

  ghost predicate AllStuck(st: State)
    requires Shaped(st)
  {
    forall t :: 0 <= t < |st.stacks| ==> !CanGo(st, t)
  }

  /** When every thread is stuck no lock is the reason. */
  lemma StuckIsParked(st: State, t: nat)
    requires Inv(st) && AllStuck(st) && t < |st.stacks|
    ensures Waits(st.stacks[t]) || Ended(st.stacks[t])
  {
    StuckShape(st, t);
    forall u | 0 <= u < |st.stacks|
      ensures st.locks[u].None?
    {
      if st.locks[u].Some? {
        StuckShape(st, st.locks[u].value);
      }
    }
  }

  lemma StuckNotReporting(st: State, id: nat)
    requires Inv(st) && AllStuck(st)
    ensures forall u :: 0 <= u < |st.stacks| ==> !Reporting(st.stacks[u], id) && !Notifying(st.stacks[u], id)
    ensures forall u :: 0 <= u < |st.stacks| && !Ended(st.stacks[u]) ==> st.lists[u] == []
    ensures forall u :: 0 <= u < |st.stacks| && st.stacks[u] == Loop(LWait) ==> st.queues[u] == [] && !st.stopped[u]
  {
    forall u | 0 <= u < |st.stacks|
      ensures Waits(st.stacks[u]) || Ended(st.stacks[u])
      ensures Waits(st.stacks[u]) ==> !st.wakes[u]
      ensures forall v :: !Alerting(st.stacks[u], v) && !Nudging(st.stacks[u], v)
    {
      StuckIsParked(st, u);
      StuckShape(st, u);
    }
  }

  lemma {:induction false} RunningIsBelow(s: Stack, bound: nat, id: nat)
    requires RunningBelow(s, bound) && Times(Running(s), id) > 0
    ensures id < bound
  {
    if s.Call? && !(s.top.Handling? && s.top.hpc == Run && s.top.p.id == id) {
      if s.top.Handling? && s.top.hpc == Run {
        TimesAppend([s.top.p.id], Running(s.below), id);
      }
      RunningIsBelow(s.below, bound, id);
    }
  }

  /** A thread that has ended has a message left. */
  predicate Abandoned(st: State)
    requires Shaped(st)
  {
    exists t :: 0 <= t < |st.stacks| && Ended(st.stacks[t]) && st.lists[t] != []
  }

  predicate AtRest(s: Stack) { s == Loop(LWait) || Ended(s) }

  /** If every thread is stuck, and no thread that ended has a message left, each
      is idle in its message loop or has ended. A thread waiting for an answer
      would wait for a handler that itself waits for the answer to a later
      message, and so on past the last message. */
  lemma {:induction false} StuckIsIdle(st: State, t: nat)
    requires Inv(st) && AllStuck(st) && t < |st.stacks| && !Abandoned(st)
    ensures AtRest(st.stacks[t])
    decreases |st.posted| - if st.stacks[t].Call? && st.stacks[t].top.Sending? then st.stacks[t].top.p.id else 0
  {
    StuckIsParked(st, t);
    StuckShape(st, t);
    if st.stacks[t].Call? {
      var p := st.stacks[t].top.p;
      StuckNotReporting(st, p.id);
      assert Known(st.posted, p);
      assert p.id in Unheard(st.stacks[t]);
      assert p.id !in st.ready;
      assert !Is(st.fates, p.id, Settled);
      var v := st.fates[p.id].at;
      Placed(st, p.id);
      assert st.fates[p.id] == InHandler(v);
      StuckIsParked(st, v);
      var s := st.stacks[v];
      assert Times(Running(s), p.id) == 1;
      assert Nested(s);
      RunningIsBelow(s.below, s.top.p.id, p.id);
      assert StackFits(st.posted, s, v);
      StuckIsIdle(st, v);
      assert false;
    }
  }

  predicate AllAnswered(st: State) {
    forall id :: 0 <= id < |st.posted| ==> Times(st.handled, id) + Times(st.cleared, id) == 1
  }

  /** A message in a list is not answered yet. */
  lemma QueuedIsUnanswered(st: State, t: nat)
    requires Inv(st) && t < |st.stacks| && st.lists[t] != []
    ensures !AllAnswered(st)
  {
    var p := st.lists[t][0];
    assert Known(st.posted, p);
    assert Times(Waiting(st.lists[t]), p.id) > 0;
    assert Is(st.fates, p.id, Queued(t));
    TimesAppend(st.handled, st.cleared, p.id);
  }

  /** Which steps leave a message with a thread that has ended: one that ends a
      loop with a message still in the list, and one that posts to a thread whose
      loop has ended. */
  lemma AbandonedExactlyWhen(st: State, t: nat, c: Choice)
    requires Shaped(st) && !Abandoned(st) && Act(st, t, c).Some?
    ensures Shaped(Act(st, t, c).value)
    ensures var e := Next(st, t, c).value.effect;
            Abandoned(Act(st, t, c).value) <==>
            || (st.stacks[t] == Loop(LTest) && st.stopped[t] && st.lists[t] != [])
            || (e.Post? && Ended(st.stacks[e.p.target]))
  {
    var Move(s, e) := Next(st, t, c).value;
    var st' := Act(st, t, c).value;
    NextEnds(st, t, c);
    NextAlerts(st, t, c);
    NextGrows(st, t, c);
    hide Next;
    LandKeepsShape(st, t, s, e);
    if st.stacks[t] == Loop(LTest) && st.stopped[t] && st.lists[t] != [] {
      assert Ended(st'.stacks[t]);
    }
    if e.Post? && Ended(st.stacks[e.p.target]) {
      assert Ended(st'.stacks[e.p.target]);
    }
    if Abandoned(st') {
      var u :| 0 <= u < |st'.stacks| && Ended(st'.stacks[u]) && st'.lists[u] != [];
      assert !(Ended(st.stacks[u]) && st.lists[u] != []);
    }
  }

  lemma NextGrows(st: State, t: nat, c: Choice)
    requires Shaped(st) && t < |st.stacks| && Next(st, t, c).Some?
    ensures Next(st, t, c).value.effect.Post? ==> Next(st, t, c).value.stack.Call?
    ensures st.stacks[t] == Loop(LTest) ==> Next(st, t, c).value.effect == Quiet
  {
  }

  /** The exact law of being stuck. In any run: if no thread can take a step, all
      threads are at rest and all messages were handled or cleared exactly when
      no thread ended with a message left. Posted messages are not left in any
      queue but that of a thread that has ended. */
  lemma StuckExactlyWhen(run: seq<State>, i: nat)
    requires IsRun(run) && i < |run|
    ensures Shaped(run[i])
    ensures AllStuck(run[i]) ==>
      ((forall t :: 0 <= t < |run[i].stacks| ==> AtRest(run[i].stacks[t])) && AllAnswered(run[i]) <==> !Abandoned(run[i]))
    ensures AllStuck(run[i]) ==> forall t :: 0 <= t < |run[i].stacks| && run[i].stacks[t] == Loop(LWait) ==>
              run[i].queues[t] == [] && !run[i].stopped[t]
  {
    var st := run[i];
    RunInv(run, i);
    if AllStuck(st) {
      StuckNotReporting(st, 0);
      if Abandoned(st) {
        var t :| 0 <= t < |st.stacks| && Ended(st.stacks[t]) && st.lists[t] != [];
        QueuedIsUnanswered(st, t);
      } else {
        forall t | 0 <= t < |st.stacks|
          ensures AtRest(st.stacks[t]) && st.lists[t] == []
        {
          StuckIsIdle(st, t);
          StuckNotReporting(st, 0);
        }
        forall id | 0 <= id < |st.posted|
          ensures Times(st.handled, id) + Times(st.cleared, id) == 1
        {
          Placed(st, id);
        }
      }
    }
  }

  /** No deadlock and nothing lost. In any run in which no thread was stopped:
      while some thread is not idle, or some send list not empty, or some posted
      message not settled, some thread can take a step. */
  lemma NeverStuck(run: seq<State>, i: nat)
    requires IsRun(run) && i < |run|
    ensures Shaped(run[i])
    ensures AllStuck(run[i]) && (forall t :: 0 <= t < |run[i].stacks| ==> !run[i].stopped[t]) ==>
      && (forall t :: 0 <= t < |run[i].stacks| ==>
            run[i].stacks[t] == Loop(LWait) && run[i].lists[t] == [] && run[i].queues[t] == [])
      && AllAnswered(run[i])
  {
    var st := run[i];
    RunInv(run, i);
    StuckExactlyWhen(run, i);
    if AllStuck(st) && forall t :: 0 <= t < |st.stacks| ==> !st.stopped[t] {
      assert forall t :: 0 <= t < |st.stacks| ==> !Ended(st.stacks[t]);
      StuckNotReporting(st, 0);
    }
  }

  // --------------------------------------------------- a message that is lost

  lemma Extend(run: seq<State>, t: nat, c: Choice, next: State) returns (longer: seq<State>)
    requires IsRun(run) && Turn(run[|run| - 1], t, c, next)
    ensures longer == run + [next] && IsRun(longer) && longer[|longer| - 1] == next
  {
    longer := run + [next];
    assert Follows(run[|run| - 1], next);
    forall i | 0 <= i < |longer| - 1
      ensures Follows(longer[i], longer[i + 1])
    {
      if i < |run| - 1 { assert Follows(run[i], run[i + 1]); }
    }
  }

  /** Two threads before anything is posted; the second stopped or not. */
  function Scene(a: Stack, b: Stack, quit: bool): State {
    State([a, b], [[], []], [[], []], [false, false], [false, quit], [None, None], [false, quit], {}, [], map[], [], [],
          [false, false], [Traffic([], [], []), Traffic([], [], [])])
  }

  /** The first thread with its message to the second one in its list. */
  function Sent(a: Stack, flags: bool, lock: Option<nat>): State {
    var p := Posting(0, 0, 1, Key(0, 0));
    State([a, Loop(LEnd)], [[], [p]], [[], []], [false, flags], [false, true], [None, lock], [false, true], {}, [p],
          map[0 := Queued(1)], [], [], [false, false], [Traffic([], [], []), Traffic([], [], [])])
  }

  lemma SceneIsShaped(a: Stack, b: Stack, quit: bool)
    requires StackOk(a, 2) && StackOk(b, 2)
    ensures Shaped(Scene(a, b, quit)) && forall t :: 0 <= t < 2 ==> Scene(a, b, quit).lists[t] == []
  {
    var st := Scene(a, b, quit);
    assert st.lists[0] == [] && st.lists[1] == [];
    forall t | 0 <= t < 2
      ensures st.lists[t] == []
    {
      if t == 0 { assert st.lists[0] == []; } else { assert t == 1; }
    }
  }

  predicate Turn(st: State, t: nat, c: Choice, next: State) {
    Shaped(st) && Act(st, t, c) == Some(next)
  }

  lemma FirstMoves(a: Stack, b: Stack, c: Choice, next: Stack)
    requires StackOk(a, 2) && StackOk(b, 2)
    requires Shaped(Scene(a, b, false)) ==> Next(Scene(a, b, false), 0, c) == Some(Move(next, Quiet))
    ensures Turn(Scene(a, b, false), 0, c, Scene(next, b, false))
  {
    SceneIsShaped(a, b, false);
    hide Next;
    assert [a, b][0 := next] == [next, b];
  }

  lemma SecondMoves(a: Stack, b: Stack, quit: bool, c: Choice, next: Stack)
    requires StackOk(a, 2) && StackOk(b, 2)
    requires Shaped(Scene(a, b, quit)) ==> Next(Scene(a, b, quit), 1, c) == Some(Move(next, Quiet))
    ensures Turn(Scene(a, b, quit), 1, c, Scene(a, next, quit))
  {
    SceneIsShaped(a, b, quit);
    hide Next;
    assert [a, b][1 := next] == [a, next];
  }

  lemma SecondQuits(a: Stack)
    requires StackOk(a, 2)
    ensures Turn(Scene(a, Loop(LHandler), false), 1, CallQuit(1), Scene(a, Loop(LHandler), true))
  {
    var st := Scene(a, Loop(LHandler), false);
    SceneIsShaped(a, Loop(LHandler), false);
    assert Next(st, 1, CallQuit(1)) == Some(Move(Loop(LHandler), Stop(1)));
    hide Next;
    assert Act(st, 1, CallQuit(1)).value == Scene(a, Loop(LHandler), true);
  }

  lemma FirstTurns(top: Stack)
    requires top == Loop(LTop)
    ensures var got, user := Loop(LGot), Loop(LHandler);
      var looking := Call(Receiving(Check), got);
      var entering, bound := Call(Calling(1, Key(0, 0), Entry), user), Call(Calling(1, Key(0, 0), Lock), user);
      && Turn(Scene(top, top, false), 0, Go, Scene(looking, top, false))
      && Turn(Scene(looking, top, false), 0, Go, Scene(got, top, false))
      && Turn(Scene(got, top, false), 0, Dispatch, Scene(user, top, false))
      && Turn(Scene(user, top, false), 0, CallSend(1, Key(0, 0)), Scene(entering, top, false))
      && Turn(Scene(entering, top, false), 0, Go, Scene(bound, top, false))
      && StackOk(bound, 2)
  {
    var got, user := Loop(LGot), Loop(LHandler);
    var looking := Call(Receiving(Check), got);
    var entering, bound := Call(Calling(1, Key(0, 0), Entry), user), Call(Calling(1, Key(0, 0), Lock), user);
    assert StackOk(top, 2) && StackOk(looking, 2) && StackOk(got, 2) && StackOk(user, 2) && StackOk(entering, 2) && StackOk(bound, 2);
    hide *;
    FirstLooks(top);
    FirstSends(top);
  }

  lemma FirstLooks(top: Stack)
    requires top == Loop(LTop)
    ensures var got, user := Loop(LGot), Loop(LHandler);
      var looking := Call(Receiving(Check), got);
      && Turn(Scene(top, top, false), 0, Go, Scene(looking, top, false))
      && Turn(Scene(looking, top, false), 0, Go, Scene(got, top, false))
      && Turn(Scene(got, top, false), 0, Dispatch, Scene(user, top, false))
  {
    var got, user := Loop(LGot), Loop(LHandler);
    var looking := Call(Receiving(Check), got);
    hide Turn, Shaped, CallingNext, SendingNext, HandlingNext, ClearingNext, QueueingNext, UserNext, Apply;
    FirstMoves(top, top, Go, looking);
    FirstMoves(looking, top, Go, got);
    FirstMoves(got, top, Dispatch, user);
  }

  lemma FirstSends(top: Stack)
    requires top == Loop(LTop)
    ensures var user := Loop(LHandler);
      var entering, bound := Call(Calling(1, Key(0, 0), Entry), user), Call(Calling(1, Key(0, 0), Lock), user);
      && Turn(Scene(user, top, false), 0, CallSend(1, Key(0, 0)), Scene(entering, top, false))
      && Turn(Scene(entering, top, false), 0, Go, Scene(bound, top, false))
  {
    var user := Loop(LHandler);
    var entering, bound := Call(Calling(1, Key(0, 0), Entry), user), Call(Calling(1, Key(0, 0), Lock), user);
    hide Turn, Scene, Shaped, SendingNext, HandlingNext, ClearingNext, QueueingNext, Apply;
    FirstMoves(user, top, CallSend(1, Key(0, 0)), entering);
    FirstMoves(entering, top, Go, bound);
  }

  lemma SecondTurns(a: Stack)
    requires StackOk(a, 2)
    ensures var top, got, user := Loop(LTop), Loop(LGot), Loop(LHandler);
      var looking := Call(Receiving(Check), got);
      && Turn(Scene(a, top, false), 1, Go, Scene(a, looking, false))
      && Turn(Scene(a, looking, false), 1, Go, Scene(a, got, false))
      && Turn(Scene(a, got, false), 1, Dispatch, Scene(a, user, false))
      && Turn(Scene(a, user, false), 1, CallQuit(1), Scene(a, user, true))
      && Turn(Scene(a, user, true), 1, Go, Scene(a, top, true))
      && Turn(Scene(a, top, true), 1, Go, Scene(a, looking, true))
      && Turn(Scene(a, looking, true), 1, Go, Scene(a, got, true))
      && Turn(Scene(a, got, true), 1, Go, Scene(a, Loop(LTest), true))
      && Turn(Scene(a, Loop(LTest), true), 1, Go, Scene(a, Loop(LEnd), true))
  {
    var top, got, user := Loop(LTop), Loop(LGot), Loop(LHandler);
    var looking := Call(Receiving(Check), got);
    hide Turn, Shaped, CallingNext, SendingNext, HandlingNext, ClearingNext, QueueingNext, Apply;
    SecondQuits(a);
    SecondMoves(a, user, true, Go, top);
    SecondMoves(a, got, true, Go, Loop(LTest));
    SecondMoves(a, Loop(LTest), true, Go, Loop(LEnd));
    SecondMoves(a, got, false, Dispatch, user);
    SecondLooks(a, false);
    SecondLooks(a, true);
  }

  lemma SecondLooks(a: Stack, quit: bool)
    requires StackOk(a, 2)
    ensures var top, looking, got := Loop(LTop), Call(Receiving(Check), Loop(LGot)), Loop(LGot);
      && Turn(Scene(a, top, quit), 1, Go, Scene(a, looking, quit))
      && Turn(Scene(a, looking, quit), 1, Go, Scene(a, got, quit))
  {
    hide Turn, Shaped, CallingNext, SendingNext, HandlingNext, ClearingNext, QueueingNext, UserNext, Apply;
    SecondMoves(a, Loop(LTop), quit, Go, Call(Receiving(Check), Loop(LGot)));
    SecondMoves(a, Call(Receiving(Check), Loop(LGot)), quit, Go, Loop(LGot));
  }

  lemma TwoAtRest() returns (run: seq<State>)
    ensures IsRun(run) && run == [Scene(Loop(LTop), Loop(LTop), false)]
  {
    run := [Scene(Loop(LTop), Loop(LTop), false)];
    assert Initial(2) == run[0];
  }

  /** The first thread comes to be bound to the second. */
  lemma BindsItself() returns (run: seq<State>)
    ensures IsRun(run) && run[|run| - 1] == Scene(Call(Calling(1, Key(0, 0), Lock), Loop(LHandler)), Loop(LTop), false)
  {
    hide *;
    var top, got, user := Loop(LTop), Loop(LGot), Loop(LHandler);
    var looking := Call(Receiving(Check), got);
    var entering := Call(Calling(1, Key(0, 0), Entry), user);
    var bound := Call(Calling(1, Key(0, 0), Lock), user);
    FirstTurns(top);
    run := TwoAtRest();
    run := Extend(run, 0, Go, Scene(looking, top, false));
    run := Extend(run, 0, Go, Scene(got, top, false));
    run := Extend(run, 0, Dispatch, Scene(user, top, false));
    run := Extend(run, 0, CallSend(1, Key(0, 0)), Scene(entering, top, false));
    run := Extend(run, 0, Go, Scene(bound, top, false));
  }

  /** Then the second quits and ends. */
  lemma QuitInBetween() returns (run: seq<State>)
    ensures IsRun(run) && run[|run| - 1] == Scene(Call(Calling(1, Key(0, 0), Lock), Loop(LHandler)), Loop(LEnd), true)
  {
    hide *;
    var top, got, user := Loop(LTop), Loop(LGot), Loop(LHandler);
    var looking := Call(Receiving(Check), got);
    var bound := Call(Calling(1, Key(0, 0), Lock), user);
    FirstTurns(top);
    SecondTurns(bound);
    run := BindsItself();
    run := Extend(run, 1, Go, Scene(bound, looking, false));
    run := Extend(run, 1, Go, Scene(bound, got, false));
    run := Extend(run, 1, Dispatch, Scene(bound, user, false));
    run := Extend(run, 1, CallQuit(1), Scene(bound, user, true));
    run := Extend(run, 1, Go, Scene(bound, top, true));
    run := Extend(run, 1, Go, Scene(bound, looking, true));
    run := Extend(run, 1, Go, Scene(bound, got, true));
    run := Extend(run, 1, Go, Scene(bound, Loop(LTest), true));
    run := Extend(run, 1, Go, Scene(bound, Loop(LEnd), true));
  }

  /** The Send goes on: it posts, raises the flag, wakes the other, and waits. */
  lemma PostsAnyway()
    ensures var p, user := Posting(0, 0, 1, Key(0, 0)), Loop(LHandler);
      var st := Scene(Call(Calling(1, Key(0, 0), Lock), user), Loop(LEnd), true);
      Turn(st, 0, Go, Sent(Call(Sending(p, false, Flag), user), false, Some(0)))
  {
    var p, user := Posting(0, 0, 1, Key(0, 0)), Loop(LHandler);
    var st := Scene(Call(Calling(1, Key(0, 0), Lock), user), Loop(LEnd), true);
    var s := Call(Sending(p, false, Flag), user);
    SceneIsShaped(st.stacks[0], st.stacks[1], true);
    assert st.lists[1] + [p] == [p];
    assert Next(st, 0, Go) == Some(Move(s, Post(p)));
    var want := Sent(s, false, Some(0));
    assert st.locks[1 := Some(0)] == want.locks;
    assert st.lists[1 := st.lists[1] + [p]] == want.lists;
    assert st.posted + [p] == want.posted;
    assert st.stacks[0 := s] == want.stacks;
    assert st.fates[p.id := Queued(1)] == want.fates;
  }

  lemma SentIsShaped(s: Stack, flags: bool, lock: Option<nat>)
    requires StackOk(s, 2)
    ensures Shaped(Sent(s, flags, lock))
  {
    var st := Sent(s, flags, lock);
    assert st.lists[0] == [] && st.lists[1] == [Posting(0, 0, 1, Key(0, 0))];
  }

  lemma SentMoves(a: Stack, flags: bool, next: Stack)
    requires StackOk(a, 2)
    requires Shaped(Sent(a, flags, None)) ==> Next(Sent(a, flags, None), 0, Go) == Some(Move(next, Quiet))
    ensures Turn(Sent(a, flags, None), 0, Go, Sent(next, flags, None))
  {
    SentIsShaped(a, flags, None);
    hide Next;
    assert [a, Loop(LEnd)][0 := next] == [next, Loop(LEnd)];
  }

  lemma Raises()
    ensures var p, user := Posting(0, 0, 1, Key(0, 0)), Loop(LHandler);
      Turn(Sent(Call(Sending(p, false, Flag), user), false, Some(0)), 0, Go, Sent(Call(Sending(p, false, Woken), user), true, None))
  {
    var p, user := Posting(0, 0, 1, Key(0, 0)), Loop(LHandler);
    var a, b := Sent(Call(Sending(p, false, Flag), user), false, Some(0)), Sent(Call(Sending(p, false, Woken), user), true, None);
    SentIsShaped(a.stacks[0], false, Some(0));
    assert Next(a, 0, Go) == Some(Move(b.stacks[0], Raise(1)));
    hide Next;
    assert Act(a, 0, Go).value == b;
  }

  lemma Signals()
    ensures var p, user := Posting(0, 0, 1, Key(0, 0)), Loop(LHandler);
      Turn(Sent(Call(Sending(p, false, Woken), user), true, None), 0, Go, Sent(Call(Sending(p, false, Test), user), true, None))
  {
    var p, user := Posting(0, 0, 1, Key(0, 0)), Loop(LHandler);
    var b, c := Sent(Call(Sending(p, false, Woken), user), true, None), Sent(Call(Sending(p, false, Test), user), true, None);
    SentIsShaped(b.stacks[0], true, None);
    assert Next(b, 0, Go) == Some(Move(c.stacks[0], Signal(1)));
    hide Next;
    assert Act(b, 0, Go).value == c;
  }

  lemma WaitsForEver()
    ensures var p, user := Posting(0, 0, 1, Key(0, 0)), Loop(LHandler);
      var test, waiting := Call(Sending(p, false, Test), user), Call(Sending(p, false, Wait), user);
      && Turn(Sent(test, true, None), 0, Go, Sent(Call(Receiving(Check), waiting), true, None))
      && Turn(Sent(Call(Receiving(Check), waiting), true, None), 0, Go, Sent(waiting, true, None))
  {
    var p, user := Posting(0, 0, 1, Key(0, 0)), Loop(LHandler);
    var test, waiting := Call(Sending(p, false, Test), user), Call(Sending(p, false, Wait), user);
    SentMoves(test, true, Call(Receiving(Check), waiting));
    SentMoves(Call(Receiving(Check), waiting), true, waiting);
  }

  lemma LostForGood(st: State, waiting: Stack)
    requires Inv(st) && st == Sent(waiting, true, None)
    requires waiting == Call(Sending(Posting(0, 0, 1, Key(0, 0)), false, Wait), Loop(LHandler))
    ensures AllStuck(st) && Abandoned(st) && !AllAnswered(st) && |st.lists[1]| == 1
    ensures st.stacks[0] == waiting && waiting.Call? && waiting.top.Sending?
  {
    hide *;
    InvParts(st);
    NobodyMoves(st, waiting);
    LeftBehind(st, waiting);
    NobodyGoes(st);
    QueuedIsUnanswered(st, 1);
  }

  lemma NobodyGoes(st: State)
    requires Shaped(st) && |st.stacks| == 2 && Next(st, 0, Go) == None && Next(st, 1, Go) == None
    ensures AllStuck(st)
  {
    hide Next, Shaped, Land;
  }

  lemma LeftBehind(st: State, waiting: Stack)
    requires Shaped(st) && st == Sent(waiting, true, None)
    ensures |st.stacks| == 2 && st.stacks[0] == waiting && Abandoned(st) && |st.lists[1]| == 1
  {
    hide Shaped;
    assert Ended(st.stacks[1]) && st.lists[1] != [];
  }

  lemma NobodyMoves(st: State, waiting: Stack)
    requires Shaped(st) && st == Sent(waiting, true, None)
    requires waiting == Call(Sending(Posting(0, 0, 1, Key(0, 0)), false, Wait), Loop(LHandler))
    ensures Next(st, 0, Go) == None && Next(st, 1, Go) == None
  {
  }

  /** It happens: a Send that made its test before the Quit posts to a thread that
      is gone, and waits for ever. */
  lemma SendToTheGone() returns (run: seq<State>)
    ensures IsRun(run) && Shaped(run[|run| - 1])
    ensures var st := run[|run| - 1];
      AllStuck(st) && Abandoned(st) && !AllAnswered(st) && st.stacks[0].Call? && st.stacks[0].top.Sending? && |st.lists[1]| == 1
  {
    var p, user := Posting(0, 0, 1, Key(0, 0)), Loop(LHandler);
    var waiting := Call(Sending(p, false, Wait), user);
    PostsAnyway();
    Raises();
    Signals();
    WaitsForEver();
    hide *;
    run := QuitInBetween();
    run := Extend(run, 0, Go, Sent(Call(Sending(p, false, Flag), user), false, Some(0)));
    run := Extend(run, 0, Go, Sent(Call(Sending(p, false, Woken), user), true, None));
    run := Extend(run, 0, Go, Sent(Call(Sending(p, false, Test), user), true, None));
    run := Extend(run, 0, Go, Sent(Call(Receiving(Check), waiting), true, None));
    run := Extend(run, 0, Go, Sent(waiting, true, None));
    RunInv(run, |run| - 1);
    LostForGood(run[|run| - 1], waiting);
  }

  /** After u was stopped it gets messages only from threads that were already
      bound to it, and have stood still since: a Send that makes its test after
      the stop posts nothing. */
  lemma {:induction false} StoppedIsSpared(run: seq<State>, i: nat, j: nat, t: nat, c: Choice, u: nat)
    requires IsRun(run) && i <= j < |run| && Shaped(run[i]) && Shaped(run[j])
    requires u < |run[i].stopped| && run[i].stopped[u]
    requires Act(run[j], t, c).Some? && Next(run[j], t, c).value.effect.Post? && Next(run[j], t, c).value.effect.p.target == u
    ensures t < |run[i].stacks| && run[i].stacks[t] == run[j].stacks[t] && Bound(run[i].stacks[t], u)
  {
    StaysStopped(run, i, j, u);
    StoppedRefuses(run[j], t, c, u);
    hide *;
    StoodStill(run, i, j, t, u);
  }

  lemma RunStep(run: seq<State>, k: nat) returns (v: nat, c: Choice)
    requires IsRun(run) && k + 1 < |run|
    ensures Shaped(run[k]) && Shaped(run[k + 1]) && Act(run[k], v, c) == Some(run[k + 1])
  {
    RunInv(run, k);
    RunInv(run, k + 1);
    assert Follows(run[k], run[k + 1]);
    v, c :| Act(run[k], v, c) == Some(run[k + 1]);
  }

  lemma {:induction false} StaysStopped(run: seq<State>, i: nat, j: nat, u: nat)
    requires IsRun(run) && i <= j < |run| && Shaped(run[i]) && u < |run[i].stopped| && run[i].stopped[u]
    ensures Shaped(run[j]) && |run[j].stacks| == |run[i].stacks|
    ensures u < |run[j].stopped| && run[j].stopped[u]
    decreases j
  {
    hide *;
    if i < j {
      StaysStopped(run, i, j - 1, u);
      var v, c := RunStep(run, j - 1);
      StoppedRefuses(run[j - 1], v, c, u);
    }
  }

  lemma {:induction false} StoodStill(run: seq<State>, i: nat, j: nat, t: nat, u: nat)
    requires IsRun(run) && i <= j < |run| && Shaped(run[i]) && Shaped(run[j]) && u < |run[i].stopped| && run[i].stopped[u]
    requires t < |run[j].stacks| && Bound(run[j].stacks[t], u)
    ensures t < |run[i].stacks| && run[i].stacks[t] == run[j].stacks[t]
    decreases j
  {
    hide *;
    if i < j {
      StaysStopped(run, i, j - 1, u);
      var v, c := RunStep(run, j - 1);
      StoppedRefuses(run[j - 1], v, c, u);
      StoodStill(run, i, j - 1, t, u);
    }
  }

  /** Parked means answered later: a parked thread with a message in its list,
      or whose wait is over, has a wake-up pending or another thread about to
      give it one. */
  lemma NoLostWakeUp(run: seq<State>, i: nat, t: nat)
    requires IsRun(run) && i < |run| && Shaped(run[i]) && t < |run[i].stacks|
    requires Parked(run[i].stacks[t])
    requires
      || run[i].lists[t] != []
      || (run[i].stacks[t].Call? && run[i].stacks[t].top.p.id in run[i].ready)
    ensures
      || run[i].wakes[t]
      || exists u :: 0 <= u < |run[i].stacks| &&
           (Alerting(run[i].stacks[u], t) || (run[i].stacks[t].Call? && Notifying(run[i].stacks[u], run[i].stacks[t].top.p.id)))
  {
    var st := run[i];
    RunInv(run, i);
    if st.stacks[t].Call? && st.stacks[t].top.p.id in st.ready {
      assert st.stacks[t].top.p.id in Unheard(st.stacks[t]);
    }
  }

  /** Posted messages in every run: each was dispatched by the loop of its thread,
      or cleared, or is in its queue, once; none overtakes another. Where nothing
      was cleared, what was dispatched and what waits is all that came, in order. */
  lemma PostsInOrder(run: seq<State>, i: nat, t: nat)
    requires IsRun(run) && i < |run| && Shaped(run[i]) && t < |run[i].stacks|
    ensures var a, q := run[i].traffic[t], run[i].queues[t];
            && Within(a.served + q, a.came)
            && multiset(a.came) == multiset(a.served) + multiset(q) + multiset(a.purged)
            && (a.purged == [] ==> a.served + q == a.came)
  {
    RunInv(run, i);
    var a, q := run[i].traffic[t], run[i].queues[t];
    assert Delivers(a, q);
    if a.purged == [] {
      assert |multiset(a.came)| == |a.came| && |multiset(a.served)| == |a.served| && |multiset(q)| == |q|;
      WithinWhole(a.served + q, a.came);
    }
  }

  lemma {:induction false} WithinWhole(s: seq<Key>, t: seq<Key>)
    requires Within(s, t)
    ensures |s| <= |t| && (|s| == |t| ==> s == t)
    decreases |t|
  {
    if s != [] {
      if Within(s, t[..|t| - 1]) {
        WithinWhole(s, t[..|t| - 1]);
      } else {
        WithinWhole(s[..|s| - 1], t[..|t| - 1]);
        assert s == s[..|s| - 1] + [s[|s| - 1]] && t == t[..|t| - 1] + [t[|t| - 1]];
      }
    }
  }

  /** No posted message is left without a wake-up. A thread that rests with a
      message in its queue has a wake-up pending or about to be given; and a
      wake-up that Post gave, and that the waits of a Send may have taken, is
      pending again unless such a Send is still under way. */
  lemma NoLostPost(run: seq<State>, i: nat, t: nat)
    requires IsRun(run) && i < |run| && Shaped(run[i]) && t < |run[i].stacks|
    ensures run[i].queues[t] != [] && Idle(run[i].stacks[t]) ==>
      run[i].wakes[t] || exists u :: 0 <= u < |run[i].stacks| && Nudging(run[i].stacks[u], t)
    ensures run[i].owed[t] ==> run[i].wakes[t] || Repaying(run[i].stacks[t])
    ensures run[i].owed[t] && run[i].stacks[t].Loop? ==> run[i].wakes[t]
  {
    RunInv(run, i);
  }
}
