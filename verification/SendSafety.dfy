/** What every interleaving of the Send protocol keeps, first part: mutual
    exclusion, and where every message is. Each invariant is a predicate on
    the state. It is kept in two lemmas: what a move of one thread does to its
    own stack, and what the effect then does to the state. */
module SendSafety {
  import opened Options
  import opened SendProtocol

  // ------------------------------------------------------------------- locks

  /** The thread whose lock is taken by thread h with the stack s. */
  function Inside(s: Stack, h: nat): Option<nat> {
    match s
    case Call(Sending(p, _, pc), _) => if pc == Flag then Some(p.target) else None
    case Call(Receiving(pc), _) => if pc == Pick then Some(h) else None
    case Call(Handling(_, pc), _) => if pc == Wakeup then Some(h) else None
    case Call(Clearing(of, _, _, pc), _) => if pc == Scan then Some(of) else None
    case Call(Waking(of, _, _, _), _) => Some(of)
    case Call(Queueing(to, _, pc), _) => if pc in {QSignal, QLeave} then Some(to) else None
    case _ => None
  }

  predicate Owns(locks: seq<Option<nat>>, h: nat, inside: Option<nat>) {
    forall t :: 0 <= t < |locks| ==> (locks[t] == Some(h) <==> inside == Some(t))
  }

  /** Mutual exclusion: the lock of t is taken exactly while its one owner is
      inside. */
  predicate LocksOk(st: State)
    requires Shaped(st)
  {
    && (forall t :: 0 <= t < |st.locks| && st.locks[t].Some? ==> st.locks[t].value < |st.stacks|)
    && (forall h :: 0 <= h < |st.stacks| ==> Owns(st.locks, h, Inside(st.stacks[h], h)))
  }

  /** The lock an effect takes, or gives back. */
  function Acquires(t: nat, e: Effect): Option<nat> {
    match e
    case Post(p) => Some(p.target)
    case Acquire(u) => Some(u)
    case Push(u, _) => Some(u)
    case Report(_) => Some(t)
    case _ => None
  }

  function Releases(t: nat, e: Effect): Option<nat> {
    match e
    case Raise(u) => Some(u)
    case Release(u) => Some(u)
    case Purge(u, _) => Some(u)
    case Drain => Some(t)
    case Take(_) => Some(t)
    case _ => None
  }

  /** A thread takes a lock that is free, gives back the one it has, and
      touches a list only inside. */
  lemma NextLocks(st: State, t: nat, c: Choice)
    requires Shaped(st) && t < |st.stacks| && Next(st, t, c).Some?
    ensures var Move(s, e) := Next(st, t, c).value;
            var a, r := Acquires(t, e), Releases(t, e);
            && (a.Some? ==> Inside(st.stacks[t], t) == None && st.locks[a.value] == None && Inside(s, t) == a)
            && (r.Some? ==> Inside(st.stacks[t], t) == r && Inside(s, t) == None)
            && (a.None? && r.None? ==> Inside(s, t) == Inside(st.stacks[t], t))
            && (e.Erase? ==> Inside(st.stacks[t], t) == Some(e.u))
            && (e.Dequeue? ==> Inside(st.stacks[t], t) == None && st.locks[t] == None)
  {
    hide ListOk;
    if IsCall(c) {
      hide LoopNext, CallingNext, SendingNext, ReceivingNext, HandlingNext, ClearingNext, QueueingNext;
    } else if st.stacks[t].Loop? {
      hide UserNext, CallingNext, SendingNext, ReceivingNext, HandlingNext, ClearingNext, QueueingNext;
    } else if st.stacks[t].top.Calling? || st.stacks[t].top.Sending? {
      hide UserNext, LoopNext, ReceivingNext, HandlingNext, ClearingNext, QueueingNext;
    } else if st.stacks[t].top.Receiving? || st.stacks[t].top.Handling? {
      hide UserNext, LoopNext, CallingNext, SendingNext, ClearingNext, QueueingNext;
    } else {
      hide UserNext, LoopNext, CallingNext, SendingNext, ReceivingNext, HandlingNext;
    }
  }

  lemma ActKeepsLocks(st: State, t: nat, c: Choice)
    requires Shaped(st) && LocksOk(st) && Act(st, t, c).Some?
    ensures Shaped(Act(st, t, c).value) && LocksOk(Act(st, t, c).value)
  {
    hide Next, Inside;
    NextLocks(st, t, c);
    var Move(s, e) := Next(st, t, c).value;
    var st' := Act(st, t, c).value;
    LandKeepsShape(st, t, s, e);
    forall h | 0 <= h < |st.stacks|
      ensures Owns(st'.locks, h, Inside(st'.stacks[h], h))
    {
      assert Owns(st.locks, h, Inside(st.stacks[h], h));
    }
  }

  // --------------------------------------------------- which message is which

  /** The message p was posted: the id determines all of it. */
  predicate Known(posted: seq<Posting>, p: Posting) {
    p.id < |posted| && posted[p.id] == p
  }

  /** A Send on the stack of t is by t, and ReceiveSends there holds messages
      to t. */
  predicate StackFits(posted: seq<Posting>, s: Stack, t: nat) {
    s.Call? ==>
      && (s.top.Sending? ==> Known(posted, s.top.p) && s.top.p.sender == t)
      && (s.top.Handling? ==> Known(posted, s.top.p) && s.top.p.target == t)
      && (s.top.Waking? ==> Known(posted, s.top.p))
      && StackFits(posted, s.below, t)
  }

  /** A send list holds messages to its thread, in the order of posting. */
  predicate ListFits(posted: seq<Posting>, l: seq<Posting>, t: nat) {
    && (forall k :: 0 <= k < |l| ==> Known(posted, l[k]) && l[k].target == t)
    && (forall j, k :: 0 <= j < k < |l| ==> l[j].id < l[k].id)
  }

  predicate MessagesOk(st: State)
    requires Shaped(st)
  {
    && (forall t :: 0 <= t < |st.stacks| ==> StackFits(st.posted, st.stacks[t], t))
    && (forall t :: 0 <= t < |st.stacks| ==> ListFits(st.posted, st.lists[t], t))
  }

  lemma PostingKeepsStack(posted: seq<Posting>, p: Posting, s: Stack, t: nat)
    requires StackFits(posted, s, t)
    ensures StackFits(posted + [p], s, t)
  {
  }

  lemma NextFits(st: State, t: nat, c: Choice)
    requires Shaped(st) && t < |st.stacks| && StackFits(st.posted, st.stacks[t], t) && Next(st, t, c).Some?
    requires var e := Next(st, t, c).value.effect;
             && (e.Take? ==> Known(st.posted, e.p) && e.p.target == t)
             && (e.Erase? ==> Known(st.posted, e.p))
    ensures var Move(s, e) := Next(st, t, c).value;
            StackFits(if e.Post? then st.posted + [e.p] else st.posted, s, t)
    ensures var e := Next(st, t, c).value.effect;
            e.Post? ==> e.p.id == |st.posted| && e.p.sender == t
  {
    var e := Next(st, t, c).value.effect;
    if e.Post? {
      PostingKeepsStack(st.posted, e.p, st.stacks[t].below, t);
    }
  }

  lemma EffectKeepsLists(st: State, t: nat, e: Effect)
    requires Shaped(st) && t < |st.stacks| && EffectOk(st, t, e)
    requires forall u :: 0 <= u < |st.stacks| ==> ListFits(st.posted, st.lists[u], u)
    requires e.Post? ==> e.p.id == |st.posted|
    ensures forall u :: 0 <= u < |st.stacks| ==> ListFits(Apply(st, t, e).posted, Apply(st, t, e).lists[u], u)
  {
  }

  lemma ActKeepsMessages(st: State, t: nat, c: Choice)
    requires Shaped(st) && MessagesOk(st) && Act(st, t, c).Some?
    ensures Shaped(Act(st, t, c).value) && MessagesOk(Act(st, t, c).value)
  {
    var Move(s, e) := Next(st, t, c).value;
    NextFits(st, t, c);
    LandKeepsShape(st, t, s, e);
    EffectKeepsLists(st, t, e);
    if e.Post? {
      forall u | 0 <= u < |st.stacks|
        ensures StackFits(st.posted + [e.p], st.stacks[u], u)
      {
        PostingKeepsStack(st.posted, e.p, st.stacks[u], u);
      }
    }
  }

  // ----------------------------------------------------- no message to itself

  /** A Send past its first test goes to another thread, or runs its handler at
      once because it does not. */
  predicate Direct(s: Stack, t: nat) {
    s.Call? ==>
      && (s.top.Calling? && s.top.cpc == Lock ==> s.top.to != t)
      && (s.top.Calling? && s.top.cpc == Inline ==> s.top.to == t)
      && Direct(s.below, t)
  }

  predicate DirectOk(st: State)
    requires Shaped(st)
  {
    && (forall t :: 0 <= t < |st.stacks| ==> Direct(st.stacks[t], t))
    && (forall k :: 0 <= k < |st.posted| ==> st.posted[k].sender != st.posted[k].target)
  }

  lemma NextDirect(st: State, t: nat, c: Choice)
    requires Shaped(st) && t < |st.stacks| && Direct(st.stacks[t], t) && Next(st, t, c).Some?
    ensures var Move(s, e) := Next(st, t, c).value; Direct(s, t) && (e.Post? ==> e.p.sender == t != e.p.target)
  {
  }

  lemma ActKeepsDirect(st: State, t: nat, c: Choice)
    requires Shaped(st) && DirectOk(st) && Act(st, t, c).Some?
    ensures Shaped(Act(st, t, c).value) && DirectOk(Act(st, t, c).value)
  {
    var Move(s, e) := Next(st, t, c).value;
    NextDirect(st, t, c);
    LandKeepsShape(st, t, s, e);
  }

  // --------------------------------------------------------- stopped threads

  /** A Send to u has passed its test and has yet to post. */
  predicate Bound(s: Stack, u: nat) {
    s.Call? && s.top.Calling? && s.top.cpc == Lock && s.top.to == u
  }

  lemma NextBound(st: State, v: nat, c: Choice, u: nat)
    requires Shaped(st) && v < |st.stacks| && Next(st, v, c).Some? && u < |st.stopped| && st.stopped[u]
    ensures var Move(s, e) := Next(st, v, c).value;
            && (Bound(s, u) ==> s == st.stacks[v])
            && (e.Post? && e.p.target == u ==> Bound(st.stacks[v], u))
  {
  }

  lemma EntryRefuses(st: State, v: nat, c: Choice, u: nat)
    requires Shaped(st) && v < |st.stacks| && Next(st, v, c).Some? && u < |st.stopped| && st.stopped[u]
    ensures var s := st.stacks[v];
            s.Call? && s.top.Calling? && s.top.cpc == Entry && s.top.to == u ==> Next(st, v, c) == Some(Move(s.below, Quiet))
  {
  }

  /** While u is stopped it stays so, no thread comes to be bound to u, and only
      one that is posts to it; a Send that makes its test now leaves no trace. */
  lemma StoppedRefuses(st: State, v: nat, c: Choice, u: nat)
    requires Shaped(st) && Act(st, v, c).Some? && u < |st.stopped| && st.stopped[u]
    ensures var st' := Act(st, v, c).value;
            && |st'.stacks| == |st.stacks| && u < |st'.stopped| == |st.stopped| && st'.stopped[u]
            && (forall t :: 0 <= t < |st.stacks| && Bound(st'.stacks[t], u) ==> st'.stacks[t] == st.stacks[t])
    ensures var e := Next(st, v, c).value.effect; e.Post? && e.p.target == u ==> Bound(st.stacks[v], u)
    ensures var s := st.stacks[v];
            s.Call? && s.top.Calling? && s.top.cpc == Entry && s.top.to == u ==>
              Act(st, v, c).value == st.(stacks := st.stacks[v := s.below])
  {
    NextBound(st, v, c, u);
    EntryRefuses(st, v, c, u);
    hide Next, Bound;
  }

  /** Only a stopped thread has ended. */
  predicate EndsOk(st: State)
    requires Shaped(st)
  {
    forall t :: 0 <= t < |st.stacks| && st.stacks[t] == Loop(LEnd) ==> st.stopped[t]
  }

  lemma ActKeepsEnds(st: State, t: nat, c: Choice)
    requires Shaped(st) && EndsOk(st) && Act(st, t, c).Some?
    ensures Shaped(Act(st, t, c).value) && EndsOk(Act(st, t, c).value)
  {
    var Move(s, e) := Next(st, t, c).value;
    NextEnds(st, t, c);
    LandKeepsShape(st, t, s, e);
  }

  lemma NextEnds(st: State, t: nat, c: Choice)
    requires Shaped(st) && t < |st.stacks| && Next(st, t, c).Some?
    ensures st.stacks[t] != Loop(LEnd)
    ensures Next(st, t, c).value.stack == Loop(LEnd) <==> st.stacks[t] == Loop(LTest) && st.stopped[t]
    ensures Next(st, t, c).value.stack == Loop(LTest) ==> st.queues[t] == []
  {
  }

  /** Of all steps, one alone ends a loop: that of a thread that found no message
      and then sees that it is stopped. It does not wait any more. */
  lemma EndsExactlyWhen(st: State, t: nat, c: Choice, u: nat)
    requires Shaped(st) && Act(st, t, c).Some? && u < |st.stacks|
    ensures Act(st, t, c).value.stacks[u] == Loop(LEnd) <==>
            st.stacks[u] == Loop(LEnd) || (u == t && st.stacks[t] == Loop(LTest) && st.stopped[t])
  {
    NextEnds(st, t, c);
    hide Next;
  }

  // ------------------------------------------------------ where a message is

  /** The messages whose handler runs on the stack. */
  function Running(s: Stack): seq<nat> {
    if s.Loop? then []
    else if s.top.Handling? && s.top.hpc == Run then [s.top.p.id] + Running(s.below)
    else Running(s.below)
  }

  function Waiting(l: seq<Posting>): seq<nat> {
    if l == [] then [] else [l[0].id] + Waiting(l[1..])
  }

  function Times(l: seq<nat>, id: nat): nat {
    if l == [] then 0 else (if l[0] == id then 1 else 0) + Times(l[1..], id)
  }

  lemma {:induction false} TimesAppend(l: seq<nat>, m: seq<nat>, id: nat)
    ensures Times(l + m, id) == Times(l, id) + Times(m, id)
  {
    if l == [] {
      assert l + m == m;
    } else {
      assert (l + m)[1..] == l[1..] + m;
      TimesAppend(l[1..], m, id);
    }
  }

  lemma {:induction false} WaitingAppend(l: seq<Posting>, m: seq<Posting>)
    ensures Waiting(l + m) == Waiting(l) + Waiting(m)
  {
    if l == [] {
      assert l + m == m;
    } else {
      assert (l + m)[1..] == l[1..] + m;
      WaitingAppend(l[1..], m);
    }
  }

  /** The sequence m has the message id once more than l. */
  ghost predicate Adds(l: seq<nat>, id: nat, m: seq<nat>) {
    forall x :: Times(m, x) == Times(l, x) + if x == id then 1 else 0
  }

  lemma AppendAdds(l: seq<nat>, id: nat)
    ensures Adds(l, id, l + [id]) && Adds(l, id, [id] + l)
  {
    forall x
      ensures Times(l + [id], x) == Times([id] + l, x) == Times(l, x) + if x == id then 1 else 0
    {
      TimesAppend(l, [id], x);
      TimesAppend([id], l, x);
    }
  }

  lemma PostAdds(l: seq<Posting>, p: Posting)
    ensures Adds(Waiting(l), p.id, Waiting(l + [p]))
  {
    WaitingAppend(l, [p]);
    assert Waiting([p]) == [p.id];
    AppendAdds(Waiting(l), p.id);
  }

  lemma InsertAdds(a: seq<nat>, id: nat, b: seq<nat>)
    ensures Adds(a + b, id, a + ([id] + b))
  {
    forall x
      ensures Times(a + ([id] + b), x) == Times(a + b, x) + if x == id then 1 else 0
    {
      TimesAppend(a, [id] + b, x);
      TimesAppend([id], b, x);
      TimesAppend(a, b, x);
    }
  }

  lemma EraseAdds(l: seq<Posting>, k: nat)
    requires k < |l|
    ensures Adds(Waiting(l[..k] + l[k + 1..]), l[k].id, Waiting(l))
  {
    assert l == l[..k] + l[k..];
    WaitingAppend(l[..k], l[k..]);
    WaitingAppend(l[..k], l[k + 1..]);
    assert l[k..][1..] == l[k + 1..];
    InsertAdds(Waiting(l[..k]), l[k].id, Waiting(l[k + 1..]));
  }

  predicate Is(fates: map<nat, Fate>, id: nat, f: Fate) {
    id in fates && fates[id] == f
  }

  /** The sequence has every message whose place is f, once, and no other. */
  ghost predicate Holds(l: seq<nat>, fates: map<nat, Fate>, f: Fate) {
    forall id :: Times(l, id) == if Is(fates, id, f) then 1 else 0
  }

  lemma Stay(l: seq<nat>, fates: map<nat, Fate>, f: Fate, id: nat, g: Fate)
    requires Holds(l, fates, f) && !Is(fates, id, f) && f != g
    ensures Holds(l, fates[id := g], f)
  {
  }

  lemma Enter(l: seq<nat>, m: seq<nat>, fates: map<nat, Fate>, f: Fate, id: nat)
    requires Holds(l, fates, f) && !Is(fates, id, f) && Adds(l, id, m)
    ensures Holds(m, fates[id := f], f)
  {
  }

  lemma Leave(l: seq<nat>, m: seq<nat>, fates: map<nat, Fate>, f: Fate, id: nat, g: Fate)
    requires Holds(m, fates, f) && f != g && Adds(l, id, m)
    ensures Is(fates, id, f)
    ensures Holds(l, fates[id := g], f)
  {
    assert Times(m, id) == Times(l, id) + 1;
  }

  /** Every posted message is in exactly one place: in one list, in the
      handler of one thread, or settled by being handled or cleared once. */
  ghost predicate PlacesOk(st: State)
    requires Shaped(st)
  {
    var n := |st.stacks|;
    && (forall id: nat :: id in st.fates <==> id < |st.posted|)
    && (forall t :: 0 <= t < n ==> Holds(Waiting(st.lists[t]), st.fates, Queued(t)))
    && (forall t :: 0 <= t < n ==> Holds(Running(st.stacks[t]), st.fates, InHandler(t)))
    && Holds(st.handled + st.cleared, st.fates, Settled)
    && (forall id :: id in st.fates ==> st.fates[id].Settled? || st.fates[id].at < n)
  }

  /** The place of a posted message. */
  lemma Placed(st: State, id: nat)
    requires Shaped(st) && PlacesOk(st) && id < |st.posted|
    ensures id in st.fates
    ensures var f := st.fates[id];
            && (f.Queued? ==> f.at < |st.stacks| && Times(Waiting(st.lists[f.at]), id) == 1 && st.lists[f.at] != [])
            && (f.InHandler? ==> f.at < |st.stacks| && Times(Running(st.stacks[f.at]), id) == 1 && st.stacks[f.at].Call?)
            && (f.Settled? ==> Times(st.handled, id) + Times(st.cleared, id) == 1)
  {
    assert Is(st.fates, id, st.fates[id]);
    TimesAppend(st.handled, st.cleared, id);
    if !st.fates[id].Settled? {
      var v := st.fates[id].at;
      assert Times([], id) == 0;
      assert st.lists[v] == [] ==> Waiting(st.lists[v]) == [];
    }
  }

  lemma NextRunning(st: State, t: nat, c: Choice)
    requires Shaped(st) && t < |st.stacks| && Next(st, t, c).Some?
    ensures var Move(s, e) := Next(st, t, c).value;
            && (e.Take? ==> Running(s) == [e.p.id] + Running(st.stacks[t]))
            && (e.Finish? ==> Running(st.stacks[t]) == [e.p.id] + Running(s))
            && (!e.Take? && !e.Finish? ==> Running(s) == Running(st.stacks[t]))
  {
  }

  lemma PostKeepsPlaces(st: State, t: nat, s: Stack, p: Posting)
    requires Shaped(st) && t < |st.stacks| && PostingOk(p, |st.stacks|) && StackOk(s, |st.stacks|)
    requires PlacesOk(st) && Running(s) == Running(st.stacks[t]) && p.id == |st.posted|
    ensures var st' := Land(st, t, s, Post(p)); Shaped(st') && PlacesOk(st')
  {
    var st', g := Land(st, t, s, Post(p)), Queued(p.target);
    LandKeepsShape(st, t, s, Post(p));
    PostAdds(st.lists[p.target], p);
    Enter(Waiting(st.lists[p.target]), Waiting(st'.lists[p.target]), st.fates, g, p.id);
    Stay(st.handled + st.cleared, st.fates, Settled, p.id, g);
    forall u | 0 <= u < |st.stacks|
      ensures Holds(Running(st.stacks[u]), st'.fates, InHandler(u))
      ensures u != p.target ==> Holds(Waiting(st.lists[u]), st'.fates, Queued(u))
    {
      Stay(Running(st.stacks[u]), st.fates, InHandler(u), p.id, g);
      if u != p.target { Stay(Waiting(st.lists[u]), st.fates, Queued(u), p.id, g); }
    }
  }

  lemma TakeKeepsPlaces(st: State, t: nat, s: Stack, p: Posting)
    requires Shaped(st) && t < |st.stacks| && EffectOk(st, t, Take(p)) && StackOk(s, |st.stacks|)
    requires PlacesOk(st) && Running(s) == [p.id] + Running(st.stacks[t])
    ensures var st' := Land(st, t, s, Take(p)); Shaped(st') && PlacesOk(st')
  {
    var st', g := Land(st, t, s, Take(p)), InHandler(t);
    LandKeepsShape(st, t, s, Take(p));
    AppendAdds(Waiting(st'.lists[t]), p.id);
    Leave(Waiting(st'.lists[t]), Waiting(st.lists[t]), st.fates, Queued(t), p.id, g);
    AppendAdds(Running(st.stacks[t]), p.id);
    Enter(Running(st.stacks[t]), Running(s), st.fates, g, p.id);
    Stay(st.handled + st.cleared, st.fates, Settled, p.id, g);
    forall u | 0 <= u < |st.stacks| && u != t
      ensures Holds(Running(st.stacks[u]), st'.fates, InHandler(u))
      ensures Holds(Waiting(st.lists[u]), st'.fates, Queued(u))
    {
      Stay(Running(st.stacks[u]), st.fates, InHandler(u), p.id, g);
      Stay(Waiting(st.lists[u]), st.fates, Queued(u), p.id, g);
    }
  }

  lemma FinishKeepsPlaces(st: State, t: nat, s: Stack, p: Posting)
    requires Shaped(st) && t < |st.stacks| && StackOk(s, |st.stacks|)
    requires PlacesOk(st) && Running(st.stacks[t]) == [p.id] + Running(s)
    ensures var st' := Land(st, t, s, Finish(p)); Shaped(st') && PlacesOk(st')
  {
    var st' := Land(st, t, s, Finish(p));
    LandKeepsShape(st, t, s, Finish(p));
    AppendAdds(Running(s), p.id);
    Leave(Running(s), Running(st.stacks[t]), st.fates, InHandler(t), p.id, Settled);
    SettleAdds(st, st', p.id);
    Enter(st.handled + st.cleared, st'.handled + st'.cleared, st.fates, Settled, p.id);
    forall u | 0 <= u < |st.stacks|
      ensures u != t ==> Holds(Running(st.stacks[u]), st'.fates, InHandler(u))
      ensures Holds(Waiting(st.lists[u]), st'.fates, Queued(u))
    {
      Stay(Waiting(st.lists[u]), st.fates, Queued(u), p.id, Settled);
      if u != t { Stay(Running(st.stacks[u]), st.fates, InHandler(u), p.id, Settled); }
    }
  }

  lemma SettleAdds(st: State, st': State, id: nat)
    requires (st'.handled, st'.cleared) in {(st.handled + [id], st.cleared), (st.handled, st.cleared + [id])}
    ensures Adds(st.handled + st.cleared, id, st'.handled + st'.cleared)
  {
    forall x
      ensures Times(st'.handled + st'.cleared, x) == Times(st.handled + st.cleared, x) + if x == id then 1 else 0
    {
      TimesAppend(st.handled, st.cleared, x);
      TimesAppend(st'.handled, st'.cleared, x);
      TimesAppend(st.handled, [id], x);
      TimesAppend(st.cleared, [id], x);
    }
  }

  lemma EraseKeepsPlaces(st: State, t: nat, s: Stack, u: nat, k: nat, p: Posting)
    requires Shaped(st) && t < |st.stacks| && EffectOk(st, t, Erase(u, k, p)) && StackOk(s, |st.stacks|)
    requires PlacesOk(st) && Running(s) == Running(st.stacks[t])
    ensures var st' := Land(st, t, s, Erase(u, k, p)); Shaped(st') && PlacesOk(st')
  {
    var st' := Land(st, t, s, Erase(u, k, p));
    LandKeepsShape(st, t, s, Erase(u, k, p));
    EraseAdds(st.lists[u], k);
    Leave(Waiting(st'.lists[u]), Waiting(st.lists[u]), st.fates, Queued(u), p.id, Settled);
    SettleAdds(st, st', p.id);
    Enter(st.handled + st.cleared, st'.handled + st'.cleared, st.fates, Settled, p.id);
    forall v | 0 <= v < |st.stacks|
      ensures Holds(Running(st.stacks[v]), st'.fates, InHandler(v))
      ensures v != u ==> Holds(Waiting(st.lists[v]), st'.fates, Queued(v))
    {
      Stay(Running(st.stacks[v]), st.fates, InHandler(v), p.id, Settled);
      if v != u { Stay(Waiting(st.lists[v]), st.fates, Queued(v), p.id, Settled); }
    }
  }

  lemma ActKeepsPlaces(st: State, t: nat, c: Choice)
    requires Shaped(st) && MessagesOk(st) && PlacesOk(st) && Act(st, t, c).Some?
    ensures Shaped(Act(st, t, c).value) && PlacesOk(Act(st, t, c).value)
  {
    var Move(s, e) := Next(st, t, c).value;
    NextRunning(st, t, c);
    LandKeepsShape(st, t, s, e);
    match e
    case Post(p) =>
      NextFits(st, t, c);
      PostKeepsPlaces(st, t, s, p);
    case Take(p) => TakeKeepsPlaces(st, t, s, p);
    case Finish(p) => FinishKeepsPlaces(st, t, s, p);
    case Erase(u, k, p) => EraseKeepsPlaces(st, t, s, u, k, p);
    case _ =>
  }

  /** A settled message stays settled. */
  lemma SettledStays(st: State, t: nat, c: Choice, id: nat)
    requires Shaped(st) && MessagesOk(st) && PlacesOk(st) && Act(st, t, c).Some?
    requires Is(st.fates, id, Settled)
    ensures Is(Act(st, t, c).value.fates, id, Settled)
  {
    var e := Next(st, t, c).value.effect;
    if e.Post? {
      NextFits(st, t, c);
    } else if e.Take? {
      AppendAdds(Waiting(st.lists[t][1..]), e.p.id);
      Leave(Waiting(st.lists[t][1..]), Waiting(st.lists[t]), st.fates, Queued(t), e.p.id, Settled);
    }
  }
}
