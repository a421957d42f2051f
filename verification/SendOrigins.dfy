/** Which call every part of the Send protocol goes back to: what is posted,
    handled, pushed and cleared is what some thread asked for. */
module SendOrigins {
  import opened Options
  import opened SendProtocol
  import opened SendSafety
  import opened SendWakeups
  import opened SendRuns

  // ------------------------------------------------------------------- steps

  /** What each effect does is what the call on top of the stack says. */
  lemma EffectsFollowCalls(st: State, t: nat, c: Choice)
    requires Shaped(st) && t < |st.stacks| && Next(st, t, c).Some?
    ensures var s, e := st.stacks[t], Next(st, t, c).value.effect;
            && (e.Post? ==> s.Call? && s.top == Calling(e.p.target, e.p.key, Lock) && e.p.sender == t && e.p.id == |st.posted|)
            && (e.Push? ==> s.Call? && s.top == Queueing(e.u, e.key, QLock))
            && (e.Purge? ==> s.Call? && s.top == Clearing(e.u, e.pattern, s.top.pos, Scan) && s.top.pos >= |st.lists[e.u]|)
            && (e.Erase? ==> s.Call? && s.top.Clearing? && s.top.of == e.u && s.top.pattern.Matches(e.p.key))
            && (e.Stop? ==> c == CallQuit(e.u))
            && (e.Take? ==> Next(st, t, c).value.stack == Call(Handling(e.p, Run), s.below))
            && (e.Finish? ==> s.Call? && s.top == Handling(e.p, Run))
  {
  }

  /** A Send comes back without a message posted only from a stopped target, or to
      its own thread, and then the handler has run: it is user code on top of the
      stack, called with the key. A Post comes back without only from a stopped
      target. Else they post, as soon as the lock is free. */
  lemma ReturnsExactlyWhen(st: State, t: nat)
    requires Shaped(st) && t < |st.stacks| && st.stacks[t].Call? && Direct(st.stacks[t], t)
    ensures var s, m := st.stacks[t], Next(st, t, Go);
            && (s.top.Calling? ==>
                  && (m.Some? && m.value.stack == s.below <==>
                        (s.top.cpc == Entry && st.stopped[s.top.to]) || (s.top.cpc == Inline && s.top.to == t && InUserCode(s)))
                  && (s.top.cpc == Entry && !st.stopped[s.top.to] && s.top.to == t ==>
                        m == Some(Move(Call(Calling(t, s.top.key, Inline), s.below), Quiet)) && InUserCode(m.value.stack))
                  && (s.top.cpc == Lock ==> if st.locks[s.top.to].Some? then m.None? else m.Some? && m.value.effect.Post?))
            && (s.top.Queueing? ==>
                  && (m.Some? && m.value.stack == s.below <==>
                        (s.top.qpc == QEntry && st.stopped[s.top.to]) || s.top.qpc == QLeave)
                  && (s.top.qpc == QLock ==> if st.locks[s.top.to].Some? then m.None? else m.Some? && m.value.effect.Push?)
                  && (s.top.qpc == QSignal ==> m.Some? && m.value.effect == Nudge(s.top.to)))
  {
    NotItsOwnPart(st.stacks[t].below, st.stacks[t].top);
  }

  /** Who is woken by a step: the target of a message just sent or posted, the
      sender of one just handled or cleared, a thread told to quit, and, once it
      has its answer, the thread itself if it had waited and so may have swallowed
      the wake-up of its loop. */
  lemma WakesExactly(st: State, t: nat, c: Choice, u: nat)
    requires Shaped(st) && t < |st.stacks| && Next(st, t, c).Some?
    ensures var s, e := st.stacks[t], Next(st, t, c).value.effect;
            e == Signal(u) || e == Nudge(u) || e == Stop(u) <==>
              || (c == CallQuit(u) && u < |st.stacks| && InUserCode(s))
              || (!IsCall(c) && s.Call? &&
                  match s.top
                  case Sending(p, waited, pc) => (pc == Woken && u == p.target) || (pc == Done && waited && u == t)
                  case Queueing(to, _, pc) => pc == QSignal && u == to
                  case Handling(p, pc) => pc == Wakeup && u == p.sender
                  case Waking(_, _, _, p) => u == p.sender
                  case _ => false)
  {
  }

  /** What is done to the wake-up of a thread. */
  lemma WokenExactly(st: State, t: nat, c: Choice, u: nat)
    requires Shaped(st) && Act(st, t, c).Some? && t < |st.stacks| && u < |st.wakes|
    ensures var e, st' := Next(st, t, c).value.effect, Act(st, t, c).value;
            |st'.wakes| == |st.wakes| && st'.wakes[u] ==
              if e == Signal(u) || e == Nudge(u) || e == Stop(u) then true
              else if e.Sleep? && u == t then false
              else st.wakes[u]
  {
    ApplyWakes(st, t, Next(st, t, c).value.effect, u);
    hide Next, Apply, Shaped;
  }

  lemma ApplyWakes(st: State, t: nat, e: Effect, u: nat)
    requires Shaped(st) && t < |st.stacks| && EffectOk(st, t, e) && u < |st.wakes|
    ensures var st' := Apply(st, t, e);
            |st'.wakes| == |st.wakes| && st'.wakes[u] ==
              if e == Signal(u) || e == Nudge(u) || e == Stop(u) then true
              else if e.Sleep? && u == t then false
              else st.wakes[u]
  {
    hide StackOk, ListOk, Unmatched, Matched;
  }

  /** The message loop: it looks at its sends first, then dispatches the front of
      its queue, whatever else is due; with an empty queue it dispatches what the
      scheduler says is due, or ends if it was stopped, or rests; and it rests
      until it is woken, or for as long as it asked. */
  lemma LoopGoesOn(st: State, t: nat, c: Choice)
    requires Shaped(st) && t < |st.stacks| && st.stacks[t].Loop? && !IsCall(c)
    ensures var m := Next(st, t, c);
            match st.stacks[t].lpc
            case LTop => m == Some(Move(Call(Receiving(Check), Loop(LGot)), Quiet))
            case LGot =>
              if st.locks[t].Some? then m.None?
              else m.Some? && (m.value.effect == Dequeue <==> |st.queues[t]| > 0)
                   && (m.value.effect != Dequeue ==> m.value.effect == Quiet)
                   && m.value.stack == Loop(if |st.queues[t]| > 0 || c == Dispatch then LHandler else LTest)
            case LHandler => m == Some(Move(Loop(LTop), Quiet))
            case LTest => m == Some(Move(if st.stopped[t] then Loop(LEnd) else Loop(LWait), Quiet))
            case LWait =>
              && (m.Some? <==> st.wakes[t] || c == Timeout)
              && (m.Some? ==> m.value.stack == Loop(LTop) && m.value.effect == if st.wakes[t] then Sleep(true) else Quiet)
            case LEnd => m.None?
  {
  }

  /** When ReceiveSends returns, the flag of its thread is down; it took the lock
      only if it was up, and took it down only over an empty list. */
  lemma ReceivedAll(st: State, t: nat, c: Choice)
    requires Shaped(st) && t < |st.stacks| && st.stacks[t].Call? && st.stacks[t].top.Receiving? && Act(st, t, c).Some?
    ensures var s, st' := st.stacks[t], Act(st, t, c).value;
            && |st'.hasSends| == |st'.lists| == |st'.stacks| == |st.stacks|
            && (st'.stacks[t] == s.below ==>
                  && !st'.hasSends[t] && st'.lists == st.lists
                  && (st.hasSends[t] || s.top.rpc == Pick ==> st.lists[t] == [] && st'.locks[t].None?))
            && (st'.stacks[t] == Call(Receiving(Enter), s.below) ==> st.hasSends[t])
            && (st.hasSends[t] && !st'.hasSends[t] ==> st.lists[t] == [])
  {
    NotItsOwnPart(st.stacks[t].below, Receiving(Enter));
  }

  lemma NotItsOwnPart(s: Stack, f: Frame)
    ensures forall g :: Call(g, s) != s
  {
    forall g
      ensures Call(g, s) != s
    {
      assert Depth(Call(g, s)) == Depth(s) + 1;
    }
  }

  /** Clear takes out of the list exactly what has the handler it asks for, if it
      asks for one, and the number it asks for, if it asks for one. */
  lemma ErasesExactly(st: State, t: nat)
    requires Shaped(st) && t < |st.stacks| && st.stacks[t].Call?
    requires st.stacks[t].top.Clearing? && st.stacks[t].top.kpc == Scan
    requires st.stacks[t].top.pos < |st.lists[st.stacks[t].top.of]|
    ensures var f := st.stacks[t].top; var p := st.lists[f.of][f.pos];
            Next(st, t, Go).Some? &&
            if (f.pattern.handler == None || f.pattern.handler == Some(p.key.handler)) && (f.pattern.what == None || f.pattern.what == Some(p.key.what))
            then Next(st, t, Go).value.effect == Erase(f.of, f.pos, p)
            else Next(st, t, Go).value.effect == Quiet
  {
  }

  /** And out of the queue exactly the same. */
  lemma {:induction false} PurgesExactly(q: seq<Key>, pattern: Pattern, k: Key)
    ensures multiset(Matched(q, pattern))[k] ==
      if (pattern.handler == None || pattern.handler == Some(k.handler)) && (pattern.what == None || pattern.what == Some(k.what))
      then multiset(q)[k] else 0
  {
    if q != [] {
      PurgesExactly(q[..|q| - 1], pattern, k);
      assert q == q[..|q| - 1] + [q[|q| - 1]];
    }
  }

  // ------------------------------------------------------------------ frames

  function Depth(s: Stack): nat {
    if s.Loop? then 0 else Depth(s.below) + 1
  }

  /** The lowest d calls, over the loop. */
  function Part(s: Stack, d: nat): (r: Stack)
    requires d <= Depth(s)
    ensures Depth(r) == d
  {
    if d == Depth(s) then s else Part(s.below, d)
  }

  /** The call that stands on d others. */
  function CallAt(s: Stack, d: nat): Frame
    requires d < Depth(s)
  {
    Part(s, d + 1).top
  }

  /** The choice of user code that opens a call; ReceiveSends is not one. */
  function Origin(f: Frame): Option<Choice> {
    match f
    case Calling(to, key, _) => Some(CallSend(to, key))
    case Sending(p, _, _) => Some(CallSend(p.target, p.key))
    case Clearing(of, pattern, _, _) => Some(CallClear(of, pattern))
    case Waking(of, pattern, _, _) => Some(CallClear(of, pattern))
    case Queueing(to, key, _) => Some(CallPost(to, key))
    case Receiving(_) => None
    case Handling(_, _) => None
  }

  /** A call stays what it was called with, or is opened by this very choice. */
  predicate Descends(s0: Stack, c: Choice, s: Stack, d: nat)
    requires d < Depth(s)
  {
    || (d < Depth(s0) && Origin(CallAt(s0, d)) == Origin(CallAt(s, d)) && Part(s0, d) == Part(s, d))
    || (d == Depth(s0) && Part(s, d) == s0 && Origin(CallAt(s, d)) == Some(c))
  }

  lemma SameBelow(f: Frame, g: Frame, below: Stack, c: Choice, d: nat)
    requires d <= Depth(below) && (d < Depth(below) || Origin(f) == Origin(g))
    ensures Descends(Call(f, below), c, Call(g, below), d)
  {
  }

  lemma Pushed(s0: Stack, f: Frame, c: Choice, d: nat)
    requires d <= Depth(s0) && (d == Depth(s0) ==> Origin(f) == Some(c))
    ensures Descends(s0, c, Call(f, s0), d)
  {
  }

  lemma Popped(s0: Stack, c: Choice, d: nat)
    requires s0.Call? && d < Depth(s0.below)
    ensures Descends(s0, c, s0.below, d)
  {
  }

  /** The shapes a move has. */
  lemma NextShapes(st: State, t: nat, c: Choice)
    requires Shaped(st) && t < |st.stacks| && Next(st, t, c).Some?
    ensures var s0, s := st.stacks[t], Next(st, t, c).value.stack;
      || s == s0
      || (s0.Call? && s == s0.below)
      || (s0.Call? && s.Call? && s.below == s0.below && Origin(s0.top) == Origin(s.top))
      || (s0.Call? && s.Call? && s.top.Receiving? && s.below.Call? && s.below.below == s0.below && Origin(s0.top) == Origin(s.below.top))
      || (s.Call? && s.below == s0 && Origin(s.top) == Some(c))
      || (s0.Loop? && (s.Loop? || (s.top.Receiving? && s.below.Loop?)))
  {
    hide StackOk, ListOk;
  }

  lemma NextDescends(st: State, t: nat, c: Choice, d: nat)
    requires Shaped(st) && t < |st.stacks| && Next(st, t, c).Some?
    requires d < Depth(Next(st, t, c).value.stack) && Origin(CallAt(Next(st, t, c).value.stack, d)).Some?
    ensures Descends(st.stacks[t], c, Next(st, t, c).value.stack, d)
  {
    NextShapes(st, t, c);
    hide Next;
    var s0, s := st.stacks[t], Next(st, t, c).value.stack;
    if s0.Call? && s == s0.below {
      Popped(s0, c, d);
    } else if s0.Call? && s.Call? && s.below == s0.below && Origin(s0.top) == Origin(s.top) {
      SameBelow(s0.top, s.top, s.below, c, d);
    } else if s.Call? && s.below == s0 && Origin(s.top) == Some(c) {
      Pushed(s0, s.top, c, d);
    } else if s0.Call? && s.Call? {
      SameBelow(s0.top, s.below.top, s.below.below, c, d);
    }
  }

  // -------------------------------------------------------------------- runs

  /** In step j of the run thread t takes the choice c. */
  predicate Chose(run: seq<State>, j: nat, t: nat, c: Choice) {
    j + 1 < |run| && Shaped(run[j]) && Act(run[j], t, c) == Some(run[j + 1])
  }

  /** Every call under way was made by user code of its thread, with what it now
      carries, on the stack it now stands on, and has been under way since. */
  lemma {:induction false} CallWasMade(run: seq<State>, i: nat, t: nat, d: nat) returns (j: nat)
    requires IsRun(run) && i < |run| && Shaped(run[i]) && t < |run[i].stacks|
    requires d < Depth(run[i].stacks[t]) && Origin(CallAt(run[i].stacks[t], d)).Some?
    ensures j < i && Chose(run, j, t, Origin(CallAt(run[i].stacks[t], d)).value)
    ensures t < |run[j].stacks| && run[j].stacks[t] == Part(run[i].stacks[t], d)
    ensures forall k :: j < k <= i ==> t < |run[k].stacks| && Depth(run[k].stacks[t]) > d && Part(run[k].stacks[t], d) == run[j].stacks[t]
    decreases i
  {
    hide *;
    AtFirst(run);
    if i > 0 {
      var v, c := RunStep(run, i - 1);
      var st := run[i - 1];
      OneStep(st, v, c, t);
      if v == t {
        NextDescends(st, t, c, d);
        DescendsMeans(st.stacks[t], c, run[i].stacks[t], d);
      }
      if v == t && d == Depth(st.stacks[t]) {
        j := i - 1;
        ChoseHere(run, j, t, c);
      } else {
        j := CallWasMade(run, i - 1, t, d);
      }
    }
  }

  lemma AtFirst(run: seq<State>)
    requires IsRun(run)
    ensures run[0].posted == [] && forall t :: 0 <= t < |run[0].stacks| ==> Depth(run[0].stacks[t]) == 0
  {
  }

  lemma DescendsMeans(s0: Stack, c: Choice, s: Stack, d: nat)
    requires d < Depth(s) && Descends(s0, c, s, d)
    ensures d != Depth(s0) ==> d < Depth(s0) && Origin(CallAt(s0, d)) == Origin(CallAt(s, d)) && Part(s0, d) == Part(s, d)
    ensures d == Depth(s0) ==> Part(s, d) == s0 && Origin(CallAt(s, d)) == Some(c)
  {
  }

  lemma OneStep(st: State, v: nat, c: Choice, t: nat)
    requires Shaped(st) && Act(st, v, c).Some?
    ensures |Act(st, v, c).value.stacks| == |st.stacks| && v < |st.stacks| && Next(st, v, c).Some?
    ensures t < |st.stacks| && t != v ==> Act(st, v, c).value.stacks[t] == st.stacks[t]
    ensures Act(st, v, c).value.stacks[v] == Next(st, v, c).value.stack
  {
    hide Next;
  }

  lemma ChoseHere(run: seq<State>, j: nat, t: nat, c: Choice)
    requires j + 1 < |run| && Shaped(run[j]) && Act(run[j], t, c) == Some(run[j + 1])
    ensures Chose(run, j, t, c)
  {
  }

  /** Every message that was ever posted has the target, the handler and the number
      of a Send that its sender called before. */
  lemma {:induction false} PostedAsCalled(run: seq<State>, i: nat, k: nat) returns (j: nat)
    requires IsRun(run) && i < |run| && k < |run[i].posted|
    ensures j < i && Chose(run, j, run[i].posted[k].sender, CallSend(run[i].posted[k].target, run[i].posted[k].key))
    decreases i
  {
    AtFirst(run);
    if i > 0 {
      var v, c := RunStep(run, i - 1);
      var st := run[i - 1];
      PostedGrows(st, v, c);
      if k < |st.posted| {
        j := PostedAsCalled(run, i - 1, k);
      } else {
        EffectsFollowCalls(st, v, c);
        hide *;
        OneStep(st, v, c, v);
        var p := run[i].posted[k];
        TopCall(st.stacks[v]);
        OriginOfSend(p);
        j := CallWasMade(run, i - 1, v, Depth(st.stacks[v]) - 1);
      }
    }
  }

  lemma TopCall(s: Stack)
    requires s.Call?
    ensures Depth(s) > 0 && CallAt(s, Depth(s) - 1) == s.top
  {
  }

  lemma OriginOfSend(p: Posting)
    ensures Origin(Calling(p.target, p.key, Lock)) == Some(CallSend(p.target, p.key))
  {
  }

  lemma PostedGrows(st: State, v: nat, c: Choice)
    requires Shaped(st) && Act(st, v, c).Some?
    ensures var e, st' := Next(st, v, c).value.effect, Act(st, v, c).value;
            v < |st.stacks| && st'.posted == if e.Post? then st.posted + [e.p] else st.posted
  {
    hide Next;
  }

  /** The message that a Send waits for, and the one whose handler runs, is one that
      its sender asked for: handler, number and target are those of its Send. */
  lemma CarriedAsCalled(run: seq<State>, i: nat, t: nat, d: nat) returns (j: nat)
    requires IsRun(run) && i < |run| && Shaped(run[i]) && t < |run[i].stacks| && d < Depth(run[i].stacks[t])
    requires var f := CallAt(run[i].stacks[t], d); f.Sending? || f.Handling?
    ensures var f := CallAt(run[i].stacks[t], d);
            && j < i && Chose(run, j, f.p.sender, CallSend(f.p.target, f.p.key))
            && (f.Sending? ==> f.p.sender == t) && (f.Handling? ==> f.p.target == t)
  {
    RunInv(run, i);
    var s := run[i].stacks[t];
    FitsAt(run[i].posted, s, t, d);
    j := PostedAsCalled(run, i, CallAt(s, d).p.id);
  }

  lemma {:induction false} FitsAt(posted: seq<Posting>, s: Stack, t: nat, d: nat)
    requires StackFits(posted, s, t) && d < Depth(s)
    ensures var f := CallAt(s, d);
            && (f.Sending? ==> Known(posted, f.p) && f.p.sender == t)
            && (f.Handling? ==> Known(posted, f.p) && f.p.target == t)
    decreases Depth(s)
  {
    if d < Depth(s) - 1 {
      FitsAt(posted, s.below, t, d);
      assert Part(s, d + 1) == Part(s.below, d + 1);
    }
  }

  /** What Post puts into a queue is what its caller gave it, and where it gave it. */
  lemma PushedAsCalled(run: seq<State>, i: nat, t: nat, c: Choice) returns (j: nat)
    requires IsRun(run) && Chose(run, i, t, c) && t < |run[i].stacks| && Next(run[i], t, c).value.effect.Push?
    ensures var e := Next(run[i], t, c).value.effect;
            && j < i && Chose(run, j, t, CallPost(e.u, e.key))
            && run[i + 1].queues[e.u] == run[i].queues[e.u] + [e.key]
  {
    hide *;
    ChoseMeans(run, i, t, c);
    EffectsFollowCalls(run[i], t, c);
    PushAppends(run[i], t, c);
    OriginOfRest(run[i].stacks[t].top);
    TopCall(run[i].stacks[t]);
    j := CallWasMade(run, i, t, Depth(run[i].stacks[t]) - 1);
  }

  lemma ChoseMeans(run: seq<State>, i: nat, t: nat, c: Choice)
    requires Chose(run, i, t, c)
    ensures i + 1 < |run| && Shaped(run[i]) && Act(run[i], t, c) == Some(run[i + 1])
    ensures t < |run[i].stacks| && Next(run[i], t, c).Some?
  {
  }

  lemma PushAppends(st: State, t: nat, c: Choice)
    requires Shaped(st) && Act(st, t, c).Some? && t < |st.stacks| && Next(st, t, c).value.effect.Push?
    ensures var e, st' := Next(st, t, c).value.effect, Act(st, t, c).value;
            e.u < |st.queues| == |st'.queues| && st'.queues[e.u] == st.queues[e.u] + [e.key]
  {
    hide Next;
  }

  lemma OriginOfRest(f: Frame)
    ensures f.Queueing? ==> Origin(f) == Some(CallPost(f.to, f.key))
    ensures f.Clearing? ==> Origin(f) == Some(CallClear(f.of, f.pattern))
  {
  }

  /** What Clear takes out is what its caller asked for. */
  lemma ClearedAsCalled(run: seq<State>, i: nat, t: nat, c: Choice) returns (j: nat, pattern: Pattern)
    requires IsRun(run) && Chose(run, i, t, c) && t < |run[i].stacks|
    requires Next(run[i], t, c).value.effect.Erase? || Next(run[i], t, c).value.effect.Purge?
    ensures var e := Next(run[i], t, c).value.effect;
            && j < i && Chose(run, j, t, CallClear(e.u, pattern))
            && (e.Erase? ==> pattern.Matches(e.p.key)) && (e.Purge? ==> e.pattern == pattern)
  {
    hide *;
    ChoseMeans(run, i, t, c);
    EffectsFollowCalls(run[i], t, c);
    OriginOfRest(run[i].stacks[t].top);
    TopCall(run[i].stacks[t]);
    pattern := run[i].stacks[t].top.pattern;
    j := CallWasMade(run, i, t, Depth(run[i].stacks[t]) - 1);
  }
}
