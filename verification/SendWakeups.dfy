/** What every interleaving of the Send protocol keeps, second part: ready
    flags, wake-ups that are not lost, and how calls nest. */
module SendWakeups {
  import opened Options
  import opened SendProtocol
  import opened SendSafety

  // ------------------------------------------------------------- ready flags

  /** ReceiveSends of this thread has run the handler of id and is about to
      set its ready flag. */
  predicate Reporting(s: Stack, id: nat) {
    s.Call? && s.top.Handling? && s.top.hpc == Reacquire && s.top.p.id == id
  }

  predicate Finished(s: Stack, ready: set<nat>) {
    s.Call? && s.top.Sending? && s.top.spc == Done ==> s.top.p.id in ready
  }

  /** Only settled messages are ready, a settled one is ready or about to be,
      and a Send is done only when its message is ready. */
  ghost predicate ReadyOk(st: State)
    requires Shaped(st)
  {
    var n := |st.stacks|;
    && (forall id :: id in st.ready ==> Is(st.fates, id, Settled))
    && (forall t, id :: 0 <= t < n && Reporting(st.stacks[t], id) ==> Is(st.fates, id, Settled))
    && (forall id :: Is(st.fates, id, Settled) && id !in st.ready ==> exists u :: 0 <= u < n && Reporting(st.stacks[u], id))
    && (forall t :: 0 <= t < n ==> Finished(st.stacks[t], st.ready))
  }

  lemma NextReports(st: State, t: nat, c: Choice)
    requires Shaped(st) && t < |st.stacks| && Next(st, t, c).Some?
    ensures var Move(s, e) := Next(st, t, c).value; var s0 := st.stacks[t];
            && (forall id :: Reporting(s0, id) <==> e.Report? && e.p.id == id)
            && (forall id :: Reporting(s, id) <==> e.Finish? && e.p.id == id)
            && Finished(s, st.ready)
  {
  }

  lemma ActKeepsReady(st: State, t: nat, c: Choice)
    requires Shaped(st) && MessagesOk(st) && PlacesOk(st) && ReadyOk(st) && Act(st, t, c).Some?
    ensures Shaped(Act(st, t, c).value) && ReadyOk(Act(st, t, c).value)
  {
    hide Next, MessagesOk, PlacesOk, StackOk, ListOk;
    var Move(s, e) := Next(st, t, c).value;
    var st' := Act(st, t, c).value;
    NextReports(st, t, c);
    LandKeepsShape(st, t, s, e);
    forall id | Is(st.fates, id, Settled)
      ensures Is(st'.fates, id, Settled)
    {
      SettledStays(st, t, c, id);
    }
    forall id | Is(st'.fates, id, Settled) && id !in st'.ready
      ensures exists u :: 0 <= u < |st.stacks| && Reporting(st'.stacks[u], id)
    {
      if e.Finish? && e.p.id == id {
        assert Reporting(st'.stacks[t], id);
      } else {
        var u :| 0 <= u < |st.stacks| && Reporting(st.stacks[u], id);
        assert Reporting(st'.stacks[u], id);
      }
    }
    assert e.Report? ==> Reporting(st.stacks[t], e.p.id);
  }

  // ----------------------------------------------- wake-ups for the send list

  predicate Flagging(s: Stack, v: nat) {
    s.Call? && s.top.Sending? && s.top.spc == Flag && s.top.p.target == v
  }

  /** A Send has put its message in the list of v and will wake v. */
  predicate Alerting(s: Stack, v: nat) {
    s.Call? && s.top.Sending? && s.top.spc in {Flag, Woken} && s.top.p.target == v
  }

  /** The thread has looked at its list and will next wait. */
  predicate Parked(s: Stack) {
    if s.Loop? then s.lpc in {LGot, LTest, LWait} else s.top.Sending? && s.top.spc == Wait
  }

  ghost predicate ListWakeOk(st: State)
    requires Shaped(st)
  {
    var n := |st.stacks|;
    && (forall v :: 0 <= v < n && st.lists[v] != [] && !st.hasSends[v] ==>
          exists u :: 0 <= u < n && Flagging(st.stacks[u], v))
    && (forall v :: 0 <= v < n && st.lists[v] != [] && Parked(st.stacks[v]) && !st.wakes[v] ==>
          exists u :: 0 <= u < n && Alerting(st.stacks[u], v))
  }

  lemma NextAlerts(st: State, t: nat, c: Choice)
    requires Shaped(st) && t < |st.stacks| && Next(st, t, c).Some?
    ensures var Move(s, e) := Next(st, t, c).value; var s0 := st.stacks[t];
            && (forall v :: Flagging(s0, v) ==> e == Raise(v) && Alerting(s, v))
            && (forall v :: Alerting(s0, v) ==> Alerting(s, v) || e == Signal(v))
            && (e.Post? ==> Flagging(s, e.p.target))
            && (e.Sleep? ==> !Parked(s))
            && (Parked(s) ==> Parked(s0) || !st.hasSends[t] || st.lists[t] == [])
            && (Parked(s) ==> !e.Post? && !e.Signal?)
  {
  }

  lemma ActKeepsListWake(st: State, t: nat, c: Choice)
    requires Shaped(st) && ListWakeOk(st) && Act(st, t, c).Some?
    ensures Shaped(Act(st, t, c).value) && ListWakeOk(Act(st, t, c).value)
  {
    hide Next;
    var Move(s, e) := Next(st, t, c).value;
    var st' := Act(st, t, c).value;
    var n := |st.stacks|;
    NextAlerts(st, t, c);
    LandKeepsShape(st, t, s, e);
    forall v | 0 <= v < n && st'.lists[v] != [] && !st'.hasSends[v]
      ensures exists u :: 0 <= u < n && Flagging(st'.stacks[u], v)
    {
      if e.Post? && e.p.target == v {
        assert Flagging(st'.stacks[t], v);
      } else {
        var u :| 0 <= u < n && Flagging(st.stacks[u], v);
        assert Flagging(st'.stacks[u], v);
      }
    }
    forall v | 0 <= v < n && st'.lists[v] != [] && Parked(st'.stacks[v]) && !st'.wakes[v]
      ensures exists u :: 0 <= u < n && Alerting(st'.stacks[u], v)
    {
      if e.Post? && e.p.target == v {
        assert Alerting(st'.stacks[t], v);
      } else if v == t && !Parked(st.stacks[t]) {
        var u :| 0 <= u < n && Flagging(st.stacks[u], v);
        assert Alerting(st'.stacks[u], v);
      } else {
        var u :| 0 <= u < n && Alerting(st.stacks[u], v);
        assert Alerting(st'.stacks[u], v);
      }
    }
  }

  // ------------------------------------------------- wake-ups for ready flags

  /** The message id is ready and its sender is about to be woken. */
  predicate Notifying(s: Stack, id: nat) {
    s.Call? && ((s.top.Handling? && s.top.hpc == Wakeup) || s.top.Waking?) && s.top.p.id == id
  }

  /** The waiting Sends on the stack that no later Send on it will wake again
      when it returns. */
  function Unheard(s: Stack): set<nat> {
    if s.Loop? then {}
    else if !s.top.Sending? then Unheard(s.below)
    else (if s.top.spc == Wait then {s.top.p.id} else {}) + (if s.top.waited then {} else Unheard(s.below))
  }

  ghost predicate ReadyWakeOk(st: State)
    requires Shaped(st)
  {
    var n := |st.stacks|;
    forall v, id :: 0 <= v < n && id in Unheard(st.stacks[v]) && id in st.ready && !st.wakes[v] ==>
      exists u :: 0 <= u < n && Notifying(st.stacks[u], id)
  }

  lemma NextUnheard(st: State, t: nat, c: Choice)
    requires Shaped(st) && t < |st.stacks| && Next(st, t, c).Some?
    ensures var Move(s, e) := Next(st, t, c).value; var s0 := st.stacks[t];
            && (forall id :: id in Unheard(s) ==> id in Unheard(s0) || id !in st.ready || e == Signal(t))
            && (e.Sleep? ==> Unheard(s) == {})
  {
  }

  lemma NextNotifies(st: State, t: nat, c: Choice)
    requires Shaped(st) && t < |st.stacks| && Next(st, t, c).Some?
    ensures var Move(s, e) := Next(st, t, c).value; var s0 := st.stacks[t];
            && (forall id :: Notifying(s0, id) ==> e == Signal(s0.top.p.sender))
            && (e.Report? || e.Erase? ==> Notifying(s, e.p.id))
  {
  }

  lemma UnheardIsOwn(posted: seq<Posting>, s: Stack, t: nat, id: nat)
    requires StackFits(posted, s, t) && id in Unheard(s)
    ensures id < |posted| && posted[id].sender == t
  {
  }

  lemma ActKeepsReadyWake(st: State, t: nat, c: Choice)
    requires Shaped(st) && MessagesOk(st) && ReadyWakeOk(st) && Act(st, t, c).Some?
    ensures Shaped(Act(st, t, c).value) && ReadyWakeOk(Act(st, t, c).value)
  {
    var Move(s, e) := Next(st, t, c).value;
    var st' := Act(st, t, c).value;
    var n := |st.stacks|;
    NextUnheard(st, t, c);
    NextNotifies(st, t, c);
    LandKeepsShape(st, t, s, e);
    forall v, id | 0 <= v < n && id in Unheard(st'.stacks[v]) && id in st'.ready && !st'.wakes[v]
      ensures exists u :: 0 <= u < n && Notifying(st'.stacks[u], id)
    {
      if (e.Report? || e.Erase?) && e.p.id == id {
        assert Notifying(st'.stacks[t], id);
      } else {
        var u :| 0 <= u < n && Notifying(st.stacks[u], id);
        UnheardIsOwn(st.posted, st.stacks[v], v, id);
        assert Notifying(st'.stacks[u], id);
      }
    }
  }

  // ------------------------------------------- wake-ups for posted messages

  /** A Post has put its message in the queue of v and is about to wake v. */
  predicate Nudging(s: Stack, v: nat) {
    s.Call? && s.top.Queueing? && s.top.qpc == QSignal && s.top.to == v
  }

  /** The loop has found the queue empty. */
  predicate Idle(s: Stack) { s == Loop(LTest) || s == Loop(LWait) }

  /** A queue that holds a message while its thread goes to wait, or waits, comes
      with a wake-up. */
  ghost predicate QueueWakeOk(st: State)
    requires Shaped(st)
  {
    var n := |st.stacks|;
    forall v :: 0 <= v < n && st.queues[v] != [] && Idle(st.stacks[v]) && !st.wakes[v] ==>
      exists u :: 0 <= u < n && Nudging(st.stacks[u], v)
  }

  lemma NextNudges(st: State, t: nat, c: Choice)
    requires Shaped(st) && t < |st.stacks| && Next(st, t, c).Some?
    ensures var Move(s, e) := Next(st, t, c).value; var s0 := st.stacks[t];
            && (forall v :: Nudging(s0, v) ==> e == Nudge(v))
            && (e.Push? ==> Nudging(s, e.u))
            && (Idle(s) ==> e == Quiet && (Idle(s0) || st.queues[t] == []))
  {
  }

  lemma ActKeepsQueueWake(st: State, t: nat, c: Choice)
    requires Shaped(st) && QueueWakeOk(st) && Act(st, t, c).Some?
    ensures Shaped(Act(st, t, c).value) && QueueWakeOk(Act(st, t, c).value)
  {
    hide Next;
    var Move(s, e) := Next(st, t, c).value;
    var st' := Act(st, t, c).value;
    var n := |st.stacks|;
    NextNudges(st, t, c);
    LandKeepsShape(st, t, s, e);
    forall v | 0 <= v < n && st'.queues[v] != [] && Idle(st'.stacks[v]) && !st'.wakes[v]
      ensures exists u :: 0 <= u < n && Nudging(st'.stacks[u], v)
    {
      if e.Push? && e.u == v {
        assert Nudging(st'.stacks[t], v);
      } else {
        var u :| 0 <= u < n && Nudging(st.stacks[u], v);
        assert Nudging(st'.stacks[u], v);
      }
    }
  }

  // ------------------------------------------------- wake-ups for stopped threads

  /** A stopped thread does not rest without a wake-up. */
  predicate StopWakeOk(st: State)
    requires Shaped(st)
  {
    forall v :: 0 <= v < |st.stacks| && st.stopped[v] && st.stacks[v] == Loop(LWait) ==> st.wakes[v]
  }

  lemma NextRests(st: State, t: nat, c: Choice)
    requires Shaped(st) && t < |st.stacks| && Next(st, t, c).Some?
    ensures var Move(s, e) := Next(st, t, c).value;
            && (s == Loop(LWait) ==> st.stacks[t] == Loop(LTest) && !st.stopped[t] && e == Quiet)
            && (e.Sleep? ==> s != Loop(LWait))
  {
  }

  lemma ActKeepsStopWake(st: State, t: nat, c: Choice)
    requires Shaped(st) && StopWakeOk(st) && Act(st, t, c).Some?
    ensures Shaped(Act(st, t, c).value) && StopWakeOk(Act(st, t, c).value)
  {
    hide Next;
    var Move(s, e) := Next(st, t, c).value;
    NextRests(st, t, c);
    LandKeepsShape(st, t, s, e);
  }

  // --------------------------------------------------------- posted messages

  /** The elements of s, in their order, are some of those of t. */
  predicate Within(s: seq<Key>, t: seq<Key>) {
    s == [] || (t != [] && (Within(s, t[..|t| - 1]) || (s[|s| - 1] == t[|t| - 1] && Within(s[..|s| - 1], t[..|t| - 1]))))
  }

  lemma {:induction false} WithinGrows(s: seq<Key>, t: seq<Key>, k: Key)
    requires Within(s, t)
    ensures Within(s, t + [k]) && Within(s + [k], t + [k])
  {
    assert (t + [k])[..|t|] == t && (s + [k])[..|s|] == s;
  }

  lemma {:induction false} FewerWithin(a: seq<Key>, q: seq<Key>, pattern: Pattern, t: seq<Key>)
    requires Within(a + q, t)
    ensures Within(a + Unmatched(q, pattern), t)
    decreases |q| + |t|
  {
    if q == [] {
      assert a + Unmatched(q, pattern) == a + q;
    } else {
      var n, s := |q| - 1, a + q;
      var r := Unmatched(q, pattern);
      assert s[..|s| - 1] == a + q[..n] && s[|s| - 1] == q[n];
      if Within(s, t[..|t| - 1]) {
        FewerWithin(a, q, pattern, t[..|t| - 1]);
      } else {
        FewerWithin(a, q[..n], pattern, t[..|t| - 1]);
        var front := a + Unmatched(q[..n], pattern);
        if pattern.Matches(q[n]) {
          assert a + r == front;
        } else {
          assert a + r == front + [q[n]] && (a + r)[..|a + r| - 1] == front;
        }
      }
    }
  }

  lemma {:induction false} SplitByMatch(q: seq<Key>, pattern: Pattern)
    ensures multiset(q) == multiset(Unmatched(q, pattern)) + multiset(Matched(q, pattern))
  {
    if q != [] {
      SplitByMatch(q[..|q| - 1], pattern);
      assert q == q[..|q| - 1] + [q[|q| - 1]];
    }
  }

  /** Nothing posted is lost, doubled or overtaken: it was dispatched, or cleared,
      or is still in the queue, and what was dispatched and what is in the queue
      are in the order of posting. */
  predicate Delivers(a: Traffic, q: seq<Key>) {
    && Within(a.served + q, a.came)
    && multiset(a.came) == multiset(a.served) + multiset(q) + multiset(a.purged)
  }

  predicate TrafficOk(st: State)
    requires Shaped(st)
  {
    forall v :: 0 <= v < |st.stacks| ==> Delivers(st.traffic[v], st.queues[v])
  }

  lemma Comes(a: Traffic, q: seq<Key>, k: Key)
    requires Delivers(a, q)
    ensures Delivers(a.(came := a.came + [k]), q + [k])
  {
    WithinGrows(a.served + q, a.came, k);
    assert a.served + (q + [k]) == (a.served + q) + [k];
  }

  lemma IsServed(a: Traffic, q: seq<Key>)
    requires Delivers(a, q) && q != []
    ensures Delivers(a.(served := a.served + [q[0]]), q[1..])
  {
    assert q == [q[0]] + q[1..];
    assert (a.served + [q[0]]) + q[1..] == a.served + q;
  }

  lemma IsPurged(a: Traffic, q: seq<Key>, pattern: Pattern)
    requires Delivers(a, q)
    ensures Delivers(a.(purged := a.purged + Matched(q, pattern)), Unmatched(q, pattern))
  {
    FewerWithin(a.served, q, pattern, a.came);
    SplitByMatch(q, pattern);
  }

  lemma ActKeepsTraffic(st: State, t: nat, c: Choice)
    requires Shaped(st) && TrafficOk(st) && Act(st, t, c).Some?
    ensures Shaped(Act(st, t, c).value) && TrafficOk(Act(st, t, c).value)
  {
    hide Next, Delivers, Within, Unmatched, Matched;
    var Move(s, e) := Next(st, t, c).value;
    LandKeepsShape(st, t, s, e);
    match e
    case Push(u, k) => Comes(st.traffic[u], st.queues[u], k);
    case Dequeue => IsServed(st.traffic[t], st.queues[t]);
    case Purge(u, pattern) => IsPurged(st.traffic[u], st.queues[u], pattern);
    case _ =>
  }

  // ------------------------------------------------------ wake-ups given back

  /** A Send under way has waited, and will wake its own thread when it returns. */
  predicate Repaying(s: Stack) {
    s.Call? && ((s.top.Sending? && s.top.waited) || Repaying(s.below))
  }

  /** A wake-up given by Post, and not yet seen by the loop, is pending, or a Send
      that may have taken it will give it back. */
  predicate OwedOk(st: State)
    requires Shaped(st)
  {
    forall v :: 0 <= v < |st.stacks| && st.owed[v] && !st.wakes[v] ==> Repaying(st.stacks[v])
  }

  lemma NextRepays(st: State, t: nat, c: Choice)
    requires Shaped(st) && t < |st.stacks| && Next(st, t, c).Some?
    ensures var Move(s, e) := Next(st, t, c).value;
            && (Repaying(st.stacks[t]) ==> Repaying(s) || e == Signal(t))
            && (e.Sleep? ==> if e.home then st.stacks[t] == Loop(LWait) else Repaying(s))
  {
  }

  lemma ActKeepsOwed(st: State, t: nat, c: Choice)
    requires Shaped(st) && OwedOk(st) && Act(st, t, c).Some?
    ensures Shaped(Act(st, t, c).value) && OwedOk(Act(st, t, c).value)
  {
    hide Next, Repaying;
    var Move(s, e) := Next(st, t, c).value;
    NextRepays(st, t, c);
    LandKeepsShape(st, t, s, e);
  }

  // ---------------------------------------------------------------- nesting

  predicate RunningBelow(s: Stack, id: nat) {
    s.Call? ==> (s.top.Handling? && s.top.hpc == Run ==> s.top.p.id < id) && RunningBelow(s.below, id)
  }

  /** A Send made from a handler posts after the handler's own message. */
  predicate Nested(s: Stack) {
    s.Call? ==> (s.top.Sending? ==> RunningBelow(s.below, s.top.p.id)) && Nested(s.below)
  }

  predicate NestedOk(st: State) {
    forall t :: 0 <= t < |st.stacks| ==> Nested(st.stacks[t])
  }

  lemma FitsBelow(posted: seq<Posting>, s: Stack, t: nat)
    requires StackFits(posted, s, t)
    ensures RunningBelow(s, |posted|)
  {
  }

  lemma ActKeepsNested(st: State, t: nat, c: Choice)
    requires Shaped(st) && MessagesOk(st) && NestedOk(st) && Act(st, t, c).Some?
    ensures Shaped(Act(st, t, c).value) && NestedOk(Act(st, t, c).value)
  {
    var Move(s, e) := Next(st, t, c).value;
    NextNested(st, t, c);
    hide Next, Nested;
    LandKeepsShape(st, t, s, e);
  }

  lemma NextNested(st: State, t: nat, c: Choice)
    requires Shaped(st) && t < |st.stacks| && StackFits(st.posted, st.stacks[t], t) && Nested(st.stacks[t])
    requires Next(st, t, c).Some?
    ensures Nested(Next(st, t, c).value.stack)
  {
    hide StackOk, ListOk;
    if Next(st, t, c).value.effect.Post? {
      FitsBelow(st.posted, st.stacks[t].below, t);
    }
  }

  // ------------------------------------------------------------------- Clear

  /** No entry before pos matches. */
  predicate Swept(l: seq<Posting>, pattern: Pattern, pos: nat) {
    forall k :: 0 <= k < |l| && k < pos ==> !pattern.Matches(l[k].key)
  }

  predicate SweepOk(lists: seq<seq<Posting>>, s: Stack) {
    match s
    case Call(Clearing(of, pattern, pos, Scan), _) => of < |lists| && Swept(lists[of], pattern, pos)
    case Call(Waking(of, pattern, pos, _), _) => of < |lists| && Swept(lists[of], pattern, pos)
    case _ => true
  }

  predicate SweepsOk(st: State)
    requires Shaped(st)
  {
    forall t :: 0 <= t < |st.stacks| ==> SweepOk(st.lists, st.stacks[t])
  }

  lemma NextSweeps(st: State, t: nat, c: Choice)
    requires Shaped(st) && t < |st.stacks| && SweepOk(st.lists, st.stacks[t]) && Next(st, t, c).Some?
    ensures var Move(s, e) := Next(st, t, c).value; SweepOk(Apply(st, t, e).lists, s)
  {
  }

  /** Nobody changes a list that another thread is sweeping. */
  lemma SweepUndisturbed(st: State, t: nat, c: Choice, u: nat)
    requires Shaped(st) && t < |st.stacks| && LocksOk(st) && Next(st, t, c).Some?
    requires u < |st.stacks| && u != t && SweepOk(st.lists, st.stacks[u])
    ensures SweepOk(Apply(st, t, Next(st, t, c).value.effect).lists, st.stacks[u])
  {
    NextLocks(st, t, c);
    assert Inside(st.stacks[u], u).Some? && Inside(st.stacks[u], u).value < |st.stacks| ==>
      st.locks[Inside(st.stacks[u], u).value] == Some(u);
  }

  lemma ActKeepsSweeps(st: State, t: nat, c: Choice)
    requires Shaped(st) && LocksOk(st) && SweepsOk(st) && Act(st, t, c).Some?
    ensures Shaped(Act(st, t, c).value) && SweepsOk(Act(st, t, c).value)
  {
    var Move(s, e) := Next(st, t, c).value;
    LandKeepsShape(st, t, s, e);
    NextSweeps(st, t, c);
    forall u | 0 <= u < |st.stacks| && u != t
      ensures SweepOk(Apply(st, t, e).lists, st.stacks[u])
    {
      SweepUndisturbed(st, t, c, u);
    }
  }

  /** When Clear returns, nothing in the list and in the queue it went through
      matches. */
  lemma ClearLeavesNoMatch(st: State, t: nat, c: Choice)
    requires Shaped(st) && LocksOk(st) && SweepsOk(st) && Act(st, t, c).Some?
    requires Next(st, t, c).value.effect.Purge?
    ensures st.stacks[t].Call? && st.stacks[t].top.Clearing?
    ensures var f := st.stacks[t].top; var l := Act(st, t, c).value.lists[f.of];
            && (forall k :: 0 <= k < |l| ==> !f.pattern.Matches(l[k].key))
            && (forall k :: k in Act(st, t, c).value.queues[f.of] ==> !f.pattern.Matches(k))
  {
  }
}
