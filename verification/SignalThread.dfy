/** The life of a worker object (talk/base/signalthread.cc, signalthread.h):
    one main thread that starts, releases and destroys it, one worker thread,
    and a reference count that every call holds up while it is inside. */
module SignalThreads {
  import opened Options

  datatype Phase = Init | Running | Releasing | Complete | Stopping

  /** The worker thread: not there, in DoWork, inside ContinueWork, inside Run
      to post the done message, past all that but not joined. */
  datatype Worker = Idle | Working | Continuing | Posting | Exited

  /** The done handler, when main is in one, knows whether it deletes. */
  datatype Handler = Outside | Signalling(deletes: bool)

  datatype State = State(
    phase: Phase,
    refcount: int,
    worker: Worker,
    done: nat,
    mainAlive: bool,
    handler: Handler,
    joining: bool,
    // history: the owner may still call; the owner's reference was dropped; the
    // object was deleted; how often the done signal fired
    owned: bool,
    dropped: bool,
    deleted: bool,
    signals: nat)

  datatype Step =
    | Start
    | Destroy(wait: bool)
    | Joined
    | Release
    | Deliver
    | HandlerReturns
    | MainDies
    | WorkContinues
    | WorkContinued
    | WorkEnds
    | DonePosted

  const INITIAL := State(Init, 1, Idle, 0, true, Outside, false, true, false, false, 0)

  // ------------------------------------------------------------------ scopes

  /** EnterExit, in and out. With the last reference the object goes, and with
      it the messages to it. */
  function Enter(s: State): State {
    s.(refcount := s.refcount + 1)
  }

  function Exit(s: State): State {
    if s.refcount == 1 then s.(refcount := 0, deleted := true, done := 0)
    else s.(refcount := s.refcount - 1)
  }

  function Drop(s: State): State {
    s.(refcount := s.refcount - 1, dropped := true)
  }

  /** Main is inside: in the done handler, or in a Destroy that has not left the
      lock for good. Then the worker cannot enter. */
  predicate MainLocks(s: State) { s.handler.Signalling? }

  /** The worker thread has nothing more to do with the object. */
  predicate Past(w: Worker) { w.Idle? || w.Exited? }

  /** Main is not inside any call. */
  predicate MainIsOut(s: State) { s.handler.Outside? && !s.joining }

  predicate WorkerLocks(s: State) { s.worker in {Continuing, Posting} }

  /** The owner, on the main thread, makes a call. */
  predicate CanCall(s: State) {
    s.mainAlive && !s.joining && s.owned && !WorkerLocks(s)
  }

  // ------------------------------------------------------------------- steps

  function StartStep(s: State): Option<State> {
    if s.phase in {Init, Complete} then Some(Exit(Enter(s).(phase := Running, worker := Working))) else None
  }

  function DestroyStep(s: State, wait: bool): Option<State> {
    if s.phase in {Init, Complete} then Some(Exit(Drop(Enter(s))).(owned := false))
    else if s.phase in {Running, Releasing} then
      var t := Enter(s).(phase := Stopping, owned := false);
      Some(if wait then t.(joining := true) else Exit(t))
    else None
  }

  function ReleaseStep(s: State): Option<State> {
    if s.phase == Complete then Some(Exit(Drop(Enter(s))).(owned := false))
    else if s.phase == Running then Some(Exit(Enter(s).(phase := Releasing)))
    else None
  }

  /** OnMessage up to the done signal, or to its end when it does not fire. */
  function DeliverStep(s: State): State {
    var t := Enter(s).(done := s.done - (if s.done > 0 then 1 else 0));
    var deletes := t.phase != Running;
    var u := if t.phase == Running then t.(phase := Complete) else t;
    if u.phase != Stopping then u.(worker := Idle, handler := Signalling(deletes), signals := u.signals + 1)
    else if deletes then Exit(Drop(u))
    else Exit(u)
  }

  /** The step of the thread it belongs to, if it can be taken and the asserted
      phases allow it. */
  function Take(s: State, step: Step): Option<State> {
    match step
    case Start => if CanCall(s) then StartStep(s) else None
    case Destroy(wait) => if CanCall(s) then DestroyStep(s, wait) else None
    case Release => if CanCall(s) then ReleaseStep(s) else None
    case Joined =>
      if s.mainAlive && s.joining && Past(s.worker)
      then Some(Exit(Drop(s.(joining := false, worker := Idle)))) else None
    case Deliver =>
      if s.mainAlive && s.handler.Outside? && !s.joining && s.done > 0 && !WorkerLocks(s) then Some(DeliverStep(s)) else None
    case HandlerReturns =>
      if s.mainAlive && s.handler.Signalling? && !s.joining then
        var t := s.(handler := Outside);
        Some(if s.handler.deletes then Exit(Drop(t)).(owned := false) else Exit(t))
      else None
    case MainDies =>
      if s.mainAlive && s.handler.Outside? && !s.joining && !WorkerLocks(s) && !s.deleted
      then Some(Exit(Enter(s).(mainAlive := false, done := 0))) else None
    case WorkContinues =>
      if s.worker == Working && !MainLocks(s) then Some(Enter(s).(worker := Continuing)) else None
    case WorkContinued => if s.worker == Continuing then Some(Exit(s.(worker := Working))) else None
    case WorkEnds =>
      if s.worker == Working && !MainLocks(s) then Some(Enter(s).(worker := Posting)) else None
    case DonePosted =>
      if s.worker == Posting
      then Some(Exit(s.(worker := Exited, done := s.done + if s.mainAlive then 1 else 0))) else None
  }

  /** The one use that is ruled out: to wait for the end of a released thread
      from the very signal that it is done. */
  predicate Misuse(s: State, step: Step) {
    step == Destroy(true) && s.handler == Signalling(true)
  }

  // --------------------------------------------------------------- invariants

  function Scopes(s: State): nat {
    (if s.handler.Signalling? then 1 else 0) + (if s.joining then 1 else 0) + (if WorkerLocks(s) then 1 else 0)
  }

  predicate Inv(s: State) {
    // the count is the owner's reference and the calls under way
    && s.refcount == (if s.dropped then 0 else 1) + Scopes(s)
    && (s.deleted <==> s.refcount == 0)
    && (s.dropped ==> Past(s.worker) && !s.owned && !s.joining)
    && (s.dropped && !s.deleted ==> s.handler == Signalling(false))
    && (s.deleted ==> s.done == 0)
    // the worker is there while the phase says so
    && (s.phase in {Init, Complete} ==> s.worker == Idle && s.done == 0)
    && (!Past(s.worker) ==> s.done == 0)
    && s.done <= 1
    && (s.phase == Init ==> s.handler.Outside?)
    && (s.handler == Signalling(true) ==> s.phase in {Releasing, Stopping} && s.worker == Idle && s.done == 0 && !s.joining)
    && (s.joining ==> s.phase == Stopping && s.mainAlive)
    && (s.handler.Signalling? ==> s.mainAlive && !WorkerLocks(s) && s.done == 0)
    && (s.done > 0 ==> s.mainAlive)
    && (s.owned ==> s.phase != Stopping)
  }

  lemma StepKeepsInv(s: State, step: Step)
    requires Inv(s) && Take(s, step).Some? && !Misuse(s, step)
    ensures Inv(Take(s, step).value)
  {
  }

  // -------------------------------------------------------------------- runs

  /** What the states of a run look like after the steps were taken, if each
      could be. */
  function Run(s: State, steps: seq<Step>): Option<State>
    decreases |steps|
  {
    if steps == [] then Some(s)
    else if Take(s, steps[0]).None? || Misuse(s, steps[0]) then None
    else Run(Take(s, steps[0]).value, steps[1..])
  }

  lemma {:induction false} RunKeepsInv(s: State, steps: seq<Step>)
    requires Inv(s) && Run(s, steps).Some?
    ensures Inv(Run(s, steps).value)
    decreases |steps|
  {
    if steps != [] {
      StepKeepsInv(s, steps[0]);
      RunKeepsInv(Take(s, steps[0]).value, steps[1..]);
    }
  }

  /** In every schedule the count is the undropped reference of the owner plus
      the open scopes, and the object is gone exactly when it is zero. */
  lemma CountIsReferences(steps: seq<Step>)
    requires Run(INITIAL, steps).Some?
    ensures var s := Run(INITIAL, steps).value;
            && s.refcount == (if s.dropped then 0 else 1) + Scopes(s)
            && (s.deleted <==> s.refcount == 0)
  {
    RunKeepsInv(INITIAL, steps);
  }

  /** Once the object is gone nothing happens to it any more: no step of the
      worker, no done message, no call. */
  lemma NothingTouchesTheDead(steps: seq<Step>, step: Step)
    requires Run(INITIAL, steps).Some? && Run(INITIAL, steps).value.deleted
    ensures Take(Run(INITIAL, steps).value, step).None?
  {
    RunKeepsInv(INITIAL, steps);
  }

  /** No call drops the owner's reference a second time. */
  lemma DroppedOnce(steps: seq<Step>, step: Step)
    requires Run(INITIAL, steps).Some? && Run(INITIAL, steps).value.dropped
    requires Take(Run(INITIAL, steps).value, step).Some? && !Misuse(Run(INITIAL, steps).value, step)
    ensures var s, t := Run(INITIAL, steps).value, Take(Run(INITIAL, steps).value, step).value;
            t.refcount - Scopes(t) == s.refcount - Scopes(s) == 0
  {
    RunKeepsInv(INITIAL, steps);
    StepKeepsInv(Run(INITIAL, steps).value, step);
  }

  /** Every scope is entered on a live object. */
  lemma EnteredAlive(steps: seq<Step>, step: Step)
    requires Run(INITIAL, steps).Some? && Take(Run(INITIAL, steps).value, step).Some?
    ensures Run(INITIAL, steps).value.refcount > 0
  {
    RunKeepsInv(INITIAL, steps);
  }

  /** When the done message comes the worker needs the lock no more, so that to
      stop it there ends; and a start finds no worker. */
  lemma WorkerIsReady(steps: seq<Step>, step: Step)
    requires Run(INITIAL, steps).Some? && Take(Run(INITIAL, steps).value, step).Some?
    ensures step.Deliver? ==> Past(Run(INITIAL, steps).value.worker)
    ensures step.Start? ==> Run(INITIAL, steps).value.worker == Idle
  {
    RunKeepsInv(INITIAL, steps);
  }

  /** After Stopping was entered the phase does not change and the done signal
      does not fire. */
  lemma {:induction false} SilentOnceStopping(s: State, steps: seq<Step>)
    requires s.phase == Stopping && Inv(s) && Run(s, steps).Some?
    ensures Run(s, steps).value.phase == Stopping
    ensures Run(s, steps).value.signals == s.signals
    decreases |steps|
  {
    if steps != [] {
      StepKeepsInv(s, steps[0]);
      SilentOnceStopping(Take(s, steps[0]).value, steps[1..]);
    }
  }

  // ------------------------------------------------------ it is deleted in the end

  /** The owner has called Destroy, or Release on an object at work, or has used up
      its reference. */
  predicate GivenUp(s: State) { s.phase in {Releasing, Stopping} || !s.owned }

  /** While main lives, what the last reference waits for is on its way: a worker
      that is not past the object, a done message, or a handler that deletes. */
  predicate OnItsWay(s: State) {
    && (s.mainAlive && s.worker == Exited && !s.dropped && !s.joining ==> s.done == 1)
    && (s.mainAlive && s.worker == Idle && s.phase in {Running, Releasing, Stopping} && !s.joining ==>
          s.dropped || s.handler == Signalling(true))
    && (!s.owned ==> s.dropped || s.phase == Stopping)
  }

  lemma StepKeepsOnItsWay(s: State, step: Step)
    requires Inv(s) && OnItsWay(s) && Take(s, step).Some? && !Misuse(s, step)
    ensures OnItsWay(Take(s, step).value)
  {
  }

  lemma {:induction false} RunKeepsOnItsWay(s: State, steps: seq<Step>)
    requires Inv(s) && OnItsWay(s) && Run(s, steps).Some?
    ensures Inv(Run(s, steps).value) && OnItsWay(Run(s, steps).value)
    decreases |steps|
  {
    if steps != [] {
      StepKeepsInv(s, steps[0]);
      StepKeepsOnItsWay(s, steps[0]);
      RunKeepsOnItsWay(Take(s, steps[0]).value, steps[1..]);
    }
  }

  lemma RestingIsDeleted(s: State)
    requires Inv(s) && OnItsWay(s) && GivenUp(s)
    requires s.mainAlive && MainIsOut(s) && Past(s.worker) && s.done == 0
    ensures s.deleted
  {
  }

  /** No leak: in every schedule, once the owner has given the object up, main is
      in no call, the worker is past the object and no done message is pending,
      the object is deleted. */
  lemma GivenUpIsDeleted(steps: seq<Step>)
    requires Run(INITIAL, steps).Some?
    ensures var s := Run(INITIAL, steps).value;
            GivenUp(s) && s.mainAlive && MainIsOut(s) && Past(s.worker) && s.done == 0 ==> s.deleted && s.refcount == 0
  {
    RunKeepsOnItsWay(INITIAL, steps);
    var s := Run(INITIAL, steps).value;
    if GivenUp(s) && s.mainAlive && MainIsOut(s) && Past(s.worker) && s.done == 0 {
      RestingIsDeleted(s);
    }
  }

  /** What nobody can keep from happening: the worker leaves ContinueWork, ends and
      posts its message, main gets it and comes back from its calls. */
  const FINISHING := {WorkContinued, WorkEnds, DonePosted, Deliver, HandlerReturns, Joined}

  /** How much of that is left. */
  function ToDo(s: State): nat {
    (match s.worker case Continuing => 24 case Working => 16 case Posting => 8 case _ => 0)
    + 4 * s.done + (if s.handler.Signalling? then 2 else 0) + (if s.joining then 1 else 0)
  }

  /** Main waits for a worker that waits for main. */
  predicate Deadlocked(s: State) { s.joining && s.handler.Signalling? && !Past(s.worker) }

  /** One such step is always possible until the object is deleted, and each brings
      the end nearer, in whatever order they come. */
  lemma FinishingGoesOn(s: State)
    requires Inv(s) && OnItsWay(s) && GivenUp(s) && s.mainAlive && !Deadlocked(s)
    ensures s.deleted || exists step :: step in FINISHING && Take(s, step).Some?
  {
    if !s.deleted {
      if MainIsOut(s) && Past(s.worker) && s.done == 0 {
        RestingIsDeleted(s);
      }
      var step := if s.worker == Continuing then WorkContinued
                  else if s.worker == Posting then DonePosted
                  else if s.joining then (if Past(s.worker) then Joined else WorkEnds)
                  else if s.handler.Signalling? then HandlerReturns
                  else if s.worker == Working then WorkEnds
                  else Deliver;
      assert step in FINISHING && Take(s, step).Some?;
    }
  }

  lemma FinishingStep(s: State, step: Step)
    requires Inv(s) && OnItsWay(s) && GivenUp(s) && s.mainAlive && !Deadlocked(s)
    requires step in FINISHING && Take(s, step).Some?
    ensures var t := Take(s, step).value;
            && Inv(t) && OnItsWay(t) && GivenUp(t) && t.mainAlive && !Deadlocked(t) && ToDo(t) < ToDo(s)
  {
    StepKeepsInv(s, step);
    StepKeepsOnItsWay(s, step);
  }

  /** However these steps come, there are only so many of them, and where no more
      is possible the object is deleted. */
  lemma {:induction false} FinishingEnds(s: State, steps: seq<Step>)
    requires Inv(s) && OnItsWay(s) && GivenUp(s) && s.mainAlive && !Deadlocked(s)
    requires (forall i :: 0 <= i < |steps| ==> steps[i] in FINISHING) && Run(s, steps).Some?
    ensures |steps| <= ToDo(s)
    ensures (forall step :: step in FINISHING ==> Take(Run(s, steps).value, step).None?) ==> Run(s, steps).value.deleted
    decreases |steps|
  {
    if steps == [] {
      FinishingGoesOn(s);
    } else {
      assert steps[0] in FINISHING;
      FinishingStep(s, steps[0]);
      FinishingEnds(Take(s, steps[0]).value, steps[1..]);
    }
  }

  /** And there is a way: from every state after the object was given up. */
  lemma {:induction false} LeadsToDeletion(s: State) returns (steps: seq<Step>)
    requires Inv(s) && OnItsWay(s) && GivenUp(s) && s.mainAlive && !Deadlocked(s)
    ensures forall i :: 0 <= i < |steps| ==> steps[i] in FINISHING
    ensures Run(s, steps).Some? && Run(s, steps).value.deleted
    decreases ToDo(s)
  {
    FinishingGoesOn(s);
    if s.deleted {
      steps := [];
    } else {
      var step :| step in FINISHING && Take(s, step).Some?;
      FinishingStep(s, step);
      var rest := LeadsToDeletion(Take(s, step).value);
      steps := [step] + rest;
      assert steps[1..] == rest && !Misuse(s, step);
    }
  }

  /** In every schedule in which the owner called Destroy or Release, and does not
      wait for a worker that waits for it, the object is deleted in the end. */
  lemma GivenUpEnds(before: seq<Step>) returns (after: seq<Step>)
    requires Run(INITIAL, before).Some?
    requires var s := Run(INITIAL, before).value; GivenUp(s) && s.mainAlive && !Deadlocked(s)
    ensures forall i :: 0 <= i < |after| ==> after[i] in FINISHING
    ensures Run(Run(INITIAL, before).value, after).Some? && Run(Run(INITIAL, before).value, after).value.deleted
  {
    RunKeepsOnItsWay(INITIAL, before);
    after := LeadsToDeletion(Run(INITIAL, before).value);
  }

  /** If main dies first the object is never deleted. */
  lemma {:induction false} LeakedExactlyWhen(s: State, steps: seq<Step>)
    requires Inv(s) && !s.mainAlive && Run(s, steps).Some?
    ensures Run(s, steps).value.deleted <==> s.deleted
    decreases |steps|
  {
    if steps != [] {
      StepKeepsInv(s, steps[0]);
      LeakedExactlyWhen(Take(s, steps[0]).value, steps[1..]);
    }
  }

  /** An object that was released, and not destroyed after, is deleted only after
      it fired its done signal, once. */
  lemma {:induction false} ReleaseSignalsOnce(s: State, steps: seq<Step>)
    requires Inv(s) && s.phase == Releasing && s.handler != Signalling(true) && !s.dropped && Run(s, steps).Some?
    requires Run(s, steps).value.phase == Releasing
    ensures Run(s, steps).value.deleted ==> Run(s, steps).value.signals == s.signals + 1
    decreases |steps|
  {
    if steps != [] {
      var t := Take(s, steps[0]).value;
      StepKeepsInv(s, steps[0]);
      if t.phase == Stopping {
        StaysStopping(t, steps[1..]);
      } else if t.handler == Signalling(true) {
        SignalledOnce(t, steps[1..]);
      } else {
        ReleaseSignalsOnce(t, steps[1..]);
      }
    }
  }

  lemma StaysStopping(s: State, steps: seq<Step>)
    requires Inv(s) && s.phase == Stopping && Run(s, steps).Some?
    ensures Run(s, steps).value.phase == Stopping
  {
    SilentOnceStopping(s, steps);
  }

  lemma {:induction false} SignalledOnce(s: State, steps: seq<Step>)
    requires Inv(s) && s.phase in {Releasing, Stopping} && Run(s, steps).Some?
    requires s.deleted || s.handler == Signalling(true) || s.phase == Stopping
    ensures Run(s, steps).value.signals == s.signals
    decreases |steps|
  {
    if s.phase == Stopping {
      SilentOnceStopping(s, steps);
    } else if steps != [] {
      StepKeepsInv(s, steps[0]);
      SignalledOnce(Take(s, steps[0]).value, steps[1..]);
    }
  }

  // ------------------------------------------------- the use that is ruled out

  /** What is left of the owner's reference: one, none, or less. */
  function Left(s: State): int { s.refcount - Scopes(s) }

  /** After any steps at all. */
  function RunAny(s: State, steps: seq<Step>): Option<State>
    decreases |steps|
  {
    if steps == [] then Some(s)
    else if Take(s, steps[0]).None? then None
    else RunAny(Take(s, steps[0]).value, steps[1..])
  }

  predicate Misused(s: State, steps: seq<Step>)
    decreases |steps|
  {
    steps != [] && (Misuse(s, steps[0]) || (Take(s, steps[0]).Some? && Misused(Take(s, steps[0]).value, steps[1..])))
  }

  /** Main waits in that Destroy, inside the done signal. */
  predicate Waiting(s: State) {
    && s.joining && s.handler == Signalling(true) && s.mainAlive && s.phase == Stopping && s.worker == Idle
    && s.done == 0 && !s.dropped && !s.owned && !s.deleted && s.refcount == 3
  }

  /** It has returned into the done signal. */
  predicate Returned(s: State) {
    && !s.joining && s.handler == Signalling(true) && s.mainAlive && s.phase == Stopping && s.worker == Idle
    && s.done == 0 && s.dropped && !s.owned && !s.deleted && s.refcount == 1
  }

  /** The signal has returned, and dropped the reference once more. */
  predicate Ruined(s: State) {
    && !s.joining && s.handler.Outside? && s.worker == Idle && s.done == 0 && !s.owned && !s.deleted && s.refcount == -1
  }

  /** That use leads to a wait that ends at once. */
  lemma MisuseWaits(s: State, step: Step)
    requires Inv(s) && Misuse(s, step) && Take(s, step).Some?
    ensures Waiting(Take(s, step).value)
  {
  }

  /** From there every step is one on the way to ruin, and ruin stays. */
  lemma RuinStep(s: State, step: Step)
    requires (Waiting(s) || Returned(s) || Ruined(s)) && Take(s, step).Some?
    ensures Waiting(s) ==> step == Joined && Returned(Take(s, step).value)
    ensures Returned(s) ==> step == HandlerReturns && Ruined(Take(s, step).value)
    ensures Ruined(s) ==> Ruined(Take(s, step).value)
  {
  }

  lemma {:induction false} RuinStays(s: State, steps: seq<Step>)
    requires (Waiting(s) || Returned(s) || Ruined(s)) && RunAny(s, steps).Some?
    ensures var t := RunAny(s, steps).value; Waiting(t) || Returned(t) || Ruined(t)
    decreases |steps|
  {
    if steps != [] {
      RuinStep(s, steps[0]);
      RuinStays(Take(s, steps[0]).value, steps[1..]);
    }
  }

  /** The exact law, for every schedule whatsoever: whenever main is out of all
      calls, the reference was dropped once at most exactly when that use was not
      made; if it was, the count is below zero. */
  lemma {:induction false} DroppedOnceExactlyWhen(s: State, steps: seq<Step>)
    requires Inv(s) && RunAny(s, steps).Some? && MainIsOut(RunAny(s, steps).value)
    ensures Left(RunAny(s, steps).value) >= 0 <==> !Misused(s, steps)
    ensures Misused(s, steps) ==> RunAny(s, steps).value.refcount == -1
    decreases |steps|
  {
    if steps != [] {
      var t := Take(s, steps[0]).value;
      if Misuse(s, steps[0]) {
        MisuseWaits(s, steps[0]);
        RuinStays(t, steps[1..]);
      } else {
        StepKeepsInv(s, steps[0]);
        DroppedOnceExactlyWhen(t, steps[1..]);
      }
    }
  }

  /** Every such use drops the reference twice, from whatever state. */
  lemma MisuseDropsTwiceAlways(s: State)
    requires Inv(s) && Misuse(s, Destroy(true)) && Take(s, Destroy(true)).Some?
    ensures var end := Then(Then(Take(s, Destroy(true)), Joined), HandlerReturns);
            end.Some? && end.value.refcount == -1 && !end.value.deleted
  {
  }

  function Then(o: Option<State>, step: Step): Option<State> {
    if o.None? then None else Take(o.value, step)
  }

  /** The worker ends, and main hears of it. */
  function Heard(o: Option<State>): Option<State> {
    Then(Then(Then(o, WorkEnds), DonePosted), Deliver)
  }

  function AtWork(phase: Phase): State {
    State(phase, 1, Working, 0, true, Outside, false, true, false, false, 0)
  }

  lemma DoneIsHeard(phase: Phase)
    requires phase in {Running, Releasing}
    ensures Heard(Some(AtWork(phase))) ==
            Some(State(if phase == Running then Complete else phase, 2, Idle, 0, true, Signalling(phase != Running), false, true, false, false, 1))
  {
    var posting := Then(Some(AtWork(phase)), WorkEnds);
    assert posting == Some(State(phase, 2, Posting, 0, true, Outside, false, true, false, false, 0));
    var posted := Then(posting, DonePosted);
    assert posted == Some(State(phase, 1, Exited, 1, true, Outside, false, true, false, false, 0));
  }

  /** And it can come to that: a schedule from the start. */
  lemma MisuseDropsTwice()
    ensures var signalled := Heard(Then(Then(Some(INITIAL), Start), Release));
            var end := Then(Then(Then(signalled, Destroy(true)), Joined), HandlerReturns);
            signalled.Some? && Misuse(signalled.value, Destroy(true)) && end.Some? && end.value.refcount == -1
  {
    assert Then(Some(INITIAL), Start) == Some(AtWork(Running));
    assert Then(Some(AtWork(Running)), Release) == Some(AtWork(Releasing));
    DoneIsHeard(Releasing);
    hide Heard;
    MisuseDropsTwiceAlways(Heard(Some(AtWork(Releasing))).value);
  }

  // -------------------------------------------------- a Destroy that hangs

  /** Main waits for the worker, and nobody can do anything any more. */
  ghost predicate Hangs(s: State) { s.joining && forall step :: Take(s, step).None? }

  /** The steps of the worker. */
  const WORKERS := {WorkContinues, WorkContinued, WorkEnds, DonePosted}

  /** A waiting Destroy waits for ever exactly when it was called from the done
      signal while the worker, started again there, still needs the lock. Else it
      comes to its end by steps of the worker alone. */
  lemma JoinHangsExactlyWhen(s: State)
    requires Inv(s) && s.joining
    ensures Hangs(s) <==> s.handler.Signalling? && !Past(s.worker)
    ensures !Hangs(s) && !Past(s.worker) ==> exists step :: step in WORKERS && Take(s, step).Some?
    ensures !Hangs(s) && Past(s.worker) ==> Take(s, Joined).Some?
  {
    assert Take(s, Joined).Some? <==> Past(s.worker);
    if !Past(s.worker) && s.handler.Outside? {
      var step := match s.worker case Working => WorkEnds case Continuing => WorkContinued case _ => DonePosted;
      assert step in WORKERS && Take(s, step).Some?;
    }
  }

  /** The same as a question the caller can ask before the call. */
  lemma DestroyHangsExactlyWhen(s: State)
    requires Inv(s) && Take(s, Destroy(true)).Some?
    ensures Hangs(Take(s, Destroy(true)).value) <==>
            s.handler.Signalling? && s.phase in {Running, Releasing} && !Past(s.worker)
  {
    var t := Take(s, Destroy(true)).value;
    if t.joining {
      if !Misuse(s, Destroy(true)) {
        StepKeepsInv(s, Destroy(true));
        JoinHangsExactlyWhen(t);
      } else {
        assert Take(t, Joined).Some?;
      }
    }
  }

  /** It can come to that: the done signal starts the object again, and then
      destroys it. */
  lemma RestartedThenDestroyed()
    ensures var signalled := Heard(Then(Some(INITIAL), Start));
            var end := Then(Then(signalled, Start), Destroy(true));
            end.Some? && Hangs(end.value) && !end.value.deleted
  {
    assert Then(Some(INITIAL), Start) == Some(AtWork(Running));
    DoneIsHeard(Running);
    hide Heard;
    var again := Then(Heard(Some(AtWork(Running))), Start);
    assert again == Some(State(Running, 2, Working, 0, true, Signalling(false), false, true, false, false, 1));
    var waiting := Then(again, Destroy(true));
    assert waiting == Some(State(Stopping, 3, Working, 0, true, Signalling(false), true, false, false, false, 1));
    JoinHangsExactlyWhen(waiting.value);
  }
}
