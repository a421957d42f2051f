/** Blocking Send between threads (talk/base/thread.cc): the state of all
    threads and the atomic steps whose interleavings are the runs.

    Every thread runs a stack of activities. At the bottom is its message loop;
    above it are the calls in progress: Send, ReceiveSends, Clear and Post. A
    handler is user code and may itself call Send, Clear, Post or Quit, which is
    how stacks grow. */
module SendProtocol {
  import opened Options

  /** The handler and the number of a message. */
  datatype Key = Key(handler: nat, what: nat)

  /** What Clear looks for: None stands for any handler, or any number. */
  datatype Pattern = Pattern(handler: Option<nat>, what: Option<nat>) {
    predicate Matches(k: Key) {
      (handler.None? || handler.value == k.handler) && (what.None? || what.value == k.what)
    }
  }

  /** An entry of a send list. The id stands for the address of the sender's
      ready flag. */
  datatype Posting = Posting(id: nat, sender: nat, target: nat, key: Key)

  /** A thread that was told to quit leaves its loop, and does not come back. */
  datatype LoopPc = LTop | LGot | LHandler | LTest | LWait | LEnd
  datatype CallPc = Entry | Inline | Lock
  datatype SendPc = Flag | Woken | Test | Wait | Done
  datatype RecvPc = Check | Enter | Pick
  datatype HandlePc = Run | Reacquire | Wakeup
  datatype ClearPc = Start | Scan
  datatype QueuePc = QEntry | QLock | QSignal | QLeave

  /** A call in progress. Calling and Sending are Send before and after its
      message is in the list; Receiving and Handling are ReceiveSends without
      and with a message in hand; Clearing and Waking are Clear; Queueing is Post. */
  datatype Frame =
    | Calling(to: nat, key: Key, cpc: CallPc)
    | Sending(p: Posting, waited: bool, spc: SendPc)
    | Receiving(rpc: RecvPc)
    | Handling(p: Posting, hpc: HandlePc)
    | Clearing(of: nat, pattern: Pattern, pos: nat, kpc: ClearPc)
    | Waking(of: nat, pattern: Pattern, pos: nat, p: Posting)
    | Queueing(to: nat, key: Key, qpc: QueuePc)

  datatype Stack = Loop(lpc: LoopPc) | Call(top: Frame, below: Stack)

  /** Where a sent message is: a history variable, like posted, handled and
      cleared below. So is owed: a Post has woken the thread, and its loop has
      not waited since. */
  datatype Fate = Queued(at: nat) | InHandler(at: nat) | Settled

  /** What was ever posted to a thread, what its loop dispatched, and what Clear
      took out of its queue: history variables too. */
  datatype Traffic = Traffic(came: seq<Key>, served: seq<Key>, purged: seq<Key>)

  datatype State = State(
    stacks: seq<Stack>,
    lists: seq<seq<Posting>>,
    queues: seq<seq<Key>>,
    hasSends: seq<bool>,
    wakes: seq<bool>,
    locks: seq<Option<nat>>,
    stopped: seq<bool>,
    ready: set<nat>,
    posted: seq<Posting>,
    fates: map<nat, Fate>,
    handled: seq<nat>,
    cleared: seq<nat>,
    owed: seq<bool>,
    traffic: seq<Traffic>)

  /** What a scheduler, or user code, decides. */
  datatype Choice =
    | Go
    | Dispatch
    | Timeout
    | CallSend(to: nat, key: Key)
    | CallClear(of: nat, pattern: Pattern)
    | CallQuit(whom: nat)
    | CallPost(to: nat, key: Key)

  // ------------------------------------------------------------- well-formed

  predicate Shaped(st: State) {
    var n := |st.stacks|;
    && |st.lists| == |st.queues| == |st.hasSends| == |st.wakes| == |st.locks| == |st.stopped| == |st.owed| == |st.traffic| == n
    && (forall t :: 0 <= t < n ==> StackOk(st.stacks[t], n))
    && (forall t :: 0 <= t < n ==> ListOk(st.lists[t], n))
  }

  predicate PostingOk(p: Posting, n: nat) {
    p.sender < n && p.target < n
  }

  predicate ListOk(l: seq<Posting>, n: nat) {
    forall k :: 0 <= k < |l| ==> PostingOk(l[k], n)
  }

  /** Every call stands on something that could make it. */
  predicate StackOk(s: Stack, n: nat) {
    s.Call? ==> FrameOk(s.top, n) && CanCarry(s.below, s.top) && StackOk(s.below, n)
  }

  predicate FrameOk(f: Frame, n: nat) {
    match f
    case Calling(to, _, _) => to < n
    case Sending(p, waited, pc) => PostingOk(p, n) && (waited ==> pc in {Test, Wait, Done})
    case Receiving(_) => true
    case Handling(p, _) => PostingOk(p, n)
    case Clearing(of, _, _, _) => of < n
    case Waking(of, _, _, p) => of < n && PostingOk(p, n)
    case Queueing(to, _, _) => to < n
  }

  /** User code runs on top of the stack. */
  predicate InUserCode(s: Stack) {
    match s
    case Loop(pc) => pc == LHandler
    case Call(Calling(_, _, pc), _) => pc == Inline
    case Call(Handling(_, pc), _) => pc == Run
    case Call(_, _) => false
  }

  /** f may stand directly on s. */
  predicate CanCarry(s: Stack, f: Frame) {
    if f.Receiving? || f.Handling? then s == Loop(LGot) || (s.Call? && s.top.Sending? && s.top.spc == Wait)
    else InUserCode(s)
  }

  // ------------------------------------------------------------------- steps

  /** What one step does to the state the threads share. */
  datatype Effect =
    | Quiet
    | Post(p: Posting)
    | Raise(u: nat)
    | Signal(u: nat)
    | Sleep(home: bool)
    | Acquire(u: nat)
    | Release(u: nat)
    | Drain
    | Take(p: Posting)
    | Finish(p: Posting)
    | Report(p: Posting)
    | Erase(u: nat, k: nat, p: Posting)
    | Stop(u: nat)
    | Push(u: nat, key: Key)
    | Nudge(u: nat)
    | Dequeue
    | Purge(u: nat, pattern: Pattern)

  /** A step of one thread: its stack afterwards, and the effect. */
  datatype Move = Move(stack: Stack, effect: Effect)

  /** The effect is one that the shared state allows. */
  predicate EffectOk(st: State, t: nat, e: Effect)
    requires Shaped(st) && t < |st.stacks|
  {
    var n := |st.stacks|;
    match e
    case Quiet => true
    case Post(p) => PostingOk(p, n)
    case Raise(u) => u < n
    case Signal(u) => u < n
    case Sleep(_) => true
    case Acquire(u) => u < n
    case Release(u) => u < n
    case Drain => st.lists[t] == []
    case Take(p) => st.lists[t] != [] && st.lists[t][0] == p
    case Finish(_) => true
    case Report(_) => true
    case Erase(u, k, p) => u < n && k < |st.lists[u]| && st.lists[u][k] == p
    case Stop(u) => u < n
    case Push(u, _) => u < n
    case Nudge(u) => u < n
    case Dequeue => st.queues[t] != []
    case Purge(u, _) => u < n
  }

  predicate MoveOk(st: State, t: nat, m: Move)
    requires Shaped(st) && t < |st.stacks|
  {
    StackOk(m.stack, |st.stacks|) && EffectOk(st, t, m.effect)
  }

  /** The message loop: receive sends, then dispatch the first message of the
      queue, or a delayed one; with none ready, end if the thread is stopped, and
      else wait. */
  function LoopNext(st: State, t: nat, pc: LoopPc, c: Choice): (m: Option<Move>)
    requires Shaped(st) && t < |st.stacks|
    ensures m.Some? ==> MoveOk(st, t, m.value)
  {
    match pc
    case LTop => Some(Move(Call(Receiving(Check), Loop(LGot)), Quiet))
    case LGot =>
      if st.locks[t].Some? then None
      else if st.queues[t] != [] then Some(Move(Loop(LHandler), Dequeue))
      else Some(Move(Loop(if c.Dispatch? then LHandler else LTest), Quiet))
    case LHandler => Some(Move(Loop(LTop), Quiet))
    case LTest => Some(Move(Loop(if st.stopped[t] then LEnd else LWait), Quiet))
    case LWait =>
      if st.wakes[t] then Some(Move(Loop(LTop), Sleep(true)))
      else if c.Timeout? then Some(Move(Loop(LTop), Quiet))
      else None
    case LEnd => None
  }

  /** Send until its message is in the list: a stopped target refuses, the
      thread itself runs the handler at once. */
  function CallingNext(st: State, t: nat, f: Frame, below: Stack): (m: Option<Move>)
    requires Shaped(st) && t < |st.stacks| && f.Calling? && st.stacks[t] == Call(f, below)
    ensures m.Some? ==> MoveOk(st, t, m.value)
  {
    match f.cpc
    case Entry =>
      if st.stopped[f.to] then Some(Move(below, Quiet))
      else Some(Move(Call(f.(cpc := if f.to == t then Inline else Lock), below), Quiet))
    case Inline => Some(Move(below, Quiet))
    case Lock =>
      if st.locks[f.to].Some? then None
      else
        var p := Posting(|st.posted|, t, f.to, f.key);
        Some(Move(Call(Sending(p, false, Flag), below), Post(p)))
  }

  /** Send after that: raise the flag, wake the target, wait for ready. */
  function SendingNext(st: State, t: nat, f: Frame, below: Stack): (m: Option<Move>)
    requires Shaped(st) && t < |st.stacks| && f.Sending? && st.stacks[t] == Call(f, below)
    ensures m.Some? ==> MoveOk(st, t, m.value)
  {
    match f.spc
    case Flag => Some(Move(Call(f.(spc := Woken), below), Raise(f.p.target)))
    case Woken => Some(Move(Call(f.(spc := Test), below), Signal(f.p.target)))
    case Test =>
      if f.p.id in st.ready then Some(Move(Call(f.(spc := Done), below), Quiet))
      else Some(Move(Call(Receiving(Check), Call(f.(spc := Wait), below)), Quiet))
    case Wait =>
      if st.wakes[t] then Some(Move(Call(f.(spc := Test, waited := true), below), Sleep(false))) else None
    case Done => Some(Move(below, if f.waited then Signal(t) else Quiet))
  }

  /** ReceiveSends: the unguarded look at the flag, then the list. */
  function ReceivingNext(st: State, t: nat, f: Frame, below: Stack): (m: Option<Move>)
    requires Shaped(st) && t < |st.stacks| && f.Receiving? && st.stacks[t] == Call(f, below)
    ensures m.Some? ==> MoveOk(st, t, m.value)
  {
    match f.rpc
    case Check => Some(Move(if st.hasSends[t] then Call(Receiving(Enter), below) else below, Quiet))
    case Enter => if st.locks[t].Some? then None else Some(Move(Call(Receiving(Pick), below), Acquire(t)))
    case Pick =>
      if st.lists[t] == [] then Some(Move(below, Drain))
      else Some(Move(Call(Handling(st.lists[t][0], Run), below), Take(st.lists[t][0])))
  }

  /** ReceiveSends with a message: run its handler without the lock, then set
      the sender's flag and wake the sender with it. */
  function HandlingNext(st: State, t: nat, f: Frame, below: Stack): (m: Option<Move>)
    requires Shaped(st) && t < |st.stacks| && f.Handling? && st.stacks[t] == Call(f, below)
    ensures m.Some? ==> MoveOk(st, t, m.value)
  {
    match f.hpc
    case Run => Some(Move(Call(Handling(f.p, Reacquire), below), Finish(f.p)))
    case Reacquire =>
      if st.locks[t].Some? then None else Some(Move(Call(Handling(f.p, Wakeup), below), Report(f.p)))
    case Wakeup => Some(Move(Call(Receiving(Pick), below), Signal(f.p.sender)))
  }

  /** Clear: one pass over the list with the lock held, then over the queue. */
  function ClearingNext(st: State, t: nat, f: Frame, below: Stack): (m: Option<Move>)
    requires Shaped(st) && t < |st.stacks| && f.Clearing? && st.stacks[t] == Call(f, below)
    ensures m.Some? ==> MoveOk(st, t, m.value)
  {
    var l := st.lists[f.of];
    match f.kpc
    case Start => if st.locks[f.of].Some? then None else Some(Move(Call(Clearing(f.of, f.pattern, 0, Scan), below), Acquire(f.of)))
    case Scan =>
      if f.pos >= |l| then Some(Move(below, Purge(f.of, f.pattern)))
      else if !f.pattern.Matches(l[f.pos].key) then
        Some(Move(Call(Clearing(f.of, f.pattern, f.pos + 1, Scan), below), Quiet))
      else Some(Move(Call(Waking(f.of, f.pattern, f.pos, l[f.pos]), below), Erase(f.of, f.pos, l[f.pos])))
  }

  /** Post: a stopped target refuses; else the message goes to the end of the
      queue, and the target is woken with the lock held. */
  function QueueingNext(st: State, t: nat, f: Frame, below: Stack): (m: Option<Move>)
    requires Shaped(st) && t < |st.stacks| && f.Queueing? && st.stacks[t] == Call(f, below)
    ensures m.Some? ==> MoveOk(st, t, m.value)
  {
    match f.qpc
    case QEntry => Some(Move(if st.stopped[f.to] then below else Call(f.(qpc := QLock), below), Quiet))
    case QLock => if st.locks[f.to].Some? then None else Some(Move(Call(f.(qpc := QSignal), below), Push(f.to, f.key)))
    case QSignal => Some(Move(Call(f.(qpc := QLeave), below), Nudge(f.to)))
    case QLeave => Some(Move(below, Release(f.to)))
  }

  predicate IsCall(c: Choice) { c.CallSend? || c.CallClear? || c.CallQuit? || c.CallPost? }

  /** What user code may do besides returning. */
  function UserNext(st: State, t: nat, c: Choice): (m: Option<Move>)
    requires Shaped(st) && t < |st.stacks|
    ensures m.Some? ==> MoveOk(st, t, m.value)
  {
    var s, n := st.stacks[t], |st.stacks|;
    if !InUserCode(s) then None
    else
      match c
      case CallSend(to, k) => if to < n then Some(Move(Call(Calling(to, k, Entry), s), Quiet)) else None
      case CallClear(of, p) => if of < n then Some(Move(Call(Clearing(of, p, 0, Start), s), Quiet)) else None
      case CallQuit(u) => if u < n then Some(Move(s, Stop(u))) else None
      case CallPost(to, k) => if to < n then Some(Move(Call(Queueing(to, k, QEntry), s), Quiet)) else None
      case _ => None
  }

  function Next(st: State, t: nat, c: Choice): (m: Option<Move>)
    requires Shaped(st) && t < |st.stacks|
    ensures m.Some? ==> MoveOk(st, t, m.value)
  {
    if IsCall(c) then UserNext(st, t, c)
    else
      match st.stacks[t]
      case Loop(pc) => LoopNext(st, t, pc, c)
      case Call(f, below) =>
        match f
        case Calling(_, _, _) => CallingNext(st, t, f, below)
        case Sending(_, _, _) => SendingNext(st, t, f, below)
        case Receiving(_) => ReceivingNext(st, t, f, below)
        case Handling(_, _) => HandlingNext(st, t, f, below)
        case Clearing(_, _, _, _) => ClearingNext(st, t, f, below)
        case Queueing(_, _, _) => QueueingNext(st, t, f, below)
        case Waking(of, pattern, pos, p) => Some(Move(Call(Clearing(of, pattern, pos, Scan), below), Signal(p.sender)))
  }

  /** The shared state after the effect of a step of t. */
  function Apply(st: State, t: nat, e: Effect): State
    requires Shaped(st) && t < |st.stacks| && EffectOk(st, t, e)
  {
    match e
    case Quiet => st
    case Post(p) =>
      var u := p.target;
      st.(locks := st.locks[u := Some(t)], lists := st.lists[u := st.lists[u] + [p]],
          posted := st.posted + [p], fates := st.fates[p.id := Queued(u)])
    case Raise(u) => st.(hasSends := st.hasSends[u := true], locks := st.locks[u := None])
    case Signal(u) => st.(wakes := st.wakes[u := true])
    case Sleep(home) => st.(wakes := st.wakes[t := false], owed := if home then st.owed[t := false] else st.owed)
    case Acquire(u) => st.(locks := st.locks[u := Some(t)])
    case Release(u) => st.(locks := st.locks[u := None])
    case Drain => st.(hasSends := st.hasSends[t := false], locks := st.locks[t := None])
    case Take(p) =>
      st.(lists := st.lists[t := st.lists[t][1..]], locks := st.locks[t := None],
          fates := st.fates[p.id := InHandler(t)])
    case Finish(p) => st.(handled := st.handled + [p.id], fates := st.fates[p.id := Settled])
    case Report(p) => st.(locks := st.locks[t := Some(t)], ready := st.ready + {p.id})
    case Erase(u, k, p) =>
      st.(lists := st.lists[u := st.lists[u][..k] + st.lists[u][k + 1..]],
          cleared := st.cleared + [p.id], fates := st.fates[p.id := Settled],
          ready := st.ready + {p.id})
    case Stop(u) => st.(stopped := st.stopped[u := true], wakes := st.wakes[u := true])
    case Push(u, k) => st.(locks := st.locks[u := Some(t)], queues := st.queues[u := st.queues[u] + [k]],
                             traffic := st.traffic[u := st.traffic[u].(came := st.traffic[u].came + [k])])
    case Nudge(u) => st.(wakes := st.wakes[u := true], owed := st.owed[u := true])
    case Dequeue =>
      st.(queues := st.queues[t := st.queues[t][1..]],
          traffic := st.traffic[t := st.traffic[t].(served := st.traffic[t].served + [st.queues[t][0]])])
    case Purge(u, pattern) =>
      st.(locks := st.locks[u := None], queues := st.queues[u := Unmatched(st.queues[u], pattern)],
          traffic := st.traffic[u := st.traffic[u].(purged := st.traffic[u].purged + Matched(st.queues[u], pattern))])
  }

  /** A queue without what matches. */
  function Unmatched(q: seq<Key>, pattern: Pattern): (r: seq<Key>)
    ensures forall k :: k in r <==> k in q && !pattern.Matches(k)
  {
    if q == [] then []
    else Unmatched(q[..|q| - 1], pattern) + if pattern.Matches(q[|q| - 1]) then [] else [q[|q| - 1]]
  }

  /** ... and that. */
  function Matched(q: seq<Key>, pattern: Pattern): (r: seq<Key>)
    ensures forall k :: k in r <==> k in q && pattern.Matches(k)
  {
    if q == [] then []
    else Matched(q[..|q| - 1], pattern) + if pattern.Matches(q[|q| - 1]) then [q[|q| - 1]] else []
  }

  /** Thread t takes one atomic step, if it can. */
  function Act(st: State, t: nat, c: Choice): Option<State>
    requires Shaped(st)
  {
    if t >= |st.stacks| then None
    else
      match Next(st, t, c)
      case None => None
      case Some(Move(s, e)) => Some(Land(st, t, s, e))
  }

  function Land(st: State, t: nat, s: Stack, e: Effect): State
    requires Shaped(st) && t < |st.stacks| && EffectOk(st, t, e)
  {
    Apply(st, t, e).(stacks := st.stacks[t := s])
  }

  lemma LandKeepsShape(st: State, t: nat, s: Stack, e: Effect)
    requires Shaped(st) && t < |st.stacks| && EffectOk(st, t, e) && StackOk(s, |st.stacks|)
    ensures Shaped(Land(st, t, s, e))
  {
  }

  /** n threads, each at the top of its message loop, nothing sent yet. */
  function Initial(n: nat): State {
    State(seq(n, i => Loop(LTop)), seq(n, i => []), seq(n, i => []), seq(n, i => false), seq(n, i => false),
          seq(n, i => None), seq(n, i => false), {}, [], map[], [], [], seq(n, i => false), seq(n, i => Traffic([], [], [])))
  }
}
