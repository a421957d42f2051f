/** The wake-up of a socket server (talk/base/physicalsocketserver.cc): a flag
    and a pipe that Wait selects on. The steps of SendProtocol take it for a
    flag that stays up until a Wait takes it down; this is why they may: in
    every run of the protocol the dispatchers of the threads show the flags. */
module WakeFlag {
  import opened Options
  import opened SendProtocol

  class EventDispatcher {
    var signaled: bool
    var pipe: seq<int>

    /** The pipe holds one byte while the flag is up, and none otherwise. */
    ghost predicate Valid()
      reads this
    {
      |pipe| == if signaled then 1 else 0
    }

    constructor ()
      ensures Valid() && !Readable()
    {
      signaled, pipe := false, [];
    }

    /** What select sees. */
    predicate Readable()
      reads this
    {
      pipe != []
    }

    /** However often it is called, one byte is pending; a write that fails
        leaves no trace. */
    method Signal(writeSucceeds: bool)
      requires Valid()
      modifies this
      ensures Valid() && Readable() == (old(Readable()) || writeSucceeds)
    {
      if !signaled {
        if writeSucceeds {
          pipe := pipe + [0];
          signaled := true;
        }
      }
    }

    /** Takes the flag down before the event is handled, so that a signal that
        comes meanwhile is not lost. */
    method OnPreEvent()
      requires Valid()
      modifies this
      ensures Valid() && !Readable()
    {
      if signaled {
        pipe := pipe[1..];
        signaled := false;
      }
    }
  }

  /** Any number of signals between two waits is one wake-up, and no signal is
      none: the second wait finds the pipe empty unless one came in between. */
  method WaitsBetweenSignals(d: EventDispatcher, signals: nat) returns (first: bool, second: bool)
    requires d.Valid() && !d.Readable()
    modifies d
    ensures d.Valid() && first == (signals > 0) && !second
  {
    for i := 0 to signals
      invariant d.Valid() && d.Readable() == (i > 0)
    {
      d.Signal(true);
    }
    first := d.Readable();
    d.OnPreEvent();
    second := d.Readable();
  }

  // ------------------------------------------------- the flags of SendProtocol

  ghost predicate Apart(board: seq<EventDispatcher>) {
    forall i, j :: 0 <= i < j < |board| ==> board[i] != board[j]
  }

  /** Every dispatcher shows the flag of its thread. */
  ghost predicate Shows(board: seq<EventDispatcher>, st: State)
    reads board
  {
    && Apart(board) && |board| == |st.wakes|
    && forall u :: 0 <= u < |board| ==> board[u].Valid() && board[u].Readable() == st.wakes[u]
  }

  /** What an effect of a step does to the dispatchers: WakeUp signals the one of
      its target, Wait takes down its own. */
  method Effectuate(board: seq<EventDispatcher>, st: State, t: nat, e: Effect)
    requires Shaped(st) && t < |st.stacks| && EffectOk(st, t, e) && Shows(board, st)
    modifies board
    ensures Shows(board, Apply(st, t, e))
  {
    match e {
      case Signal(u) => board[u].Signal(true);
      case Stop(u) => board[u].Signal(true);
      case Nudge(u) => board[u].Signal(true);
      case Sleep(_) => board[t].OnPreEvent();
      case _ =>
    }
  }

  datatype Turn = Turn(thread: nat, choice: Choice)

  /** The state after a schedule; a turn of a thread that cannot go is skipped. */
  function After(st: State, turns: seq<Turn>): (r: State)
    requires Shaped(st)
    ensures Shaped(r)
  {
    if turns == [] then st
    else
      var before, last := After(st, turns[..|turns| - 1]), turns[|turns| - 1];
      match Act(before, last.thread, last.choice)
      case None => before
      case Some(next) =>
        var m := Next(before, last.thread, last.choice).value;
        LandKeepsShape(before, last.thread, m.stack, m.effect);
        next
  }

  /** Along any schedule of any number of threads the dispatchers behave as the
      flags of the protocol do. */
  method FollowRun(n: nat, turns: seq<Turn>) returns (board: seq<EventDispatcher>)
    ensures Shaped(Initial(n)) && Shows(board, After(Initial(n), turns))
  {
    board := [];
    for i := 0 to n
      invariant |board| == i && Apart(board)
      invariant forall u :: 0 <= u < i ==> fresh(board[u]) && board[u].Valid() && !board[u].Readable()
    {
      var d := new EventDispatcher();
      board := board + [d];
    }
    var st := Initial(n);
    for k := 0 to |turns|
      invariant Shaped(st) && st == After(Initial(n), turns[..k])
      invariant Shows(board, st) && forall d :: d in board ==> fresh(d)
    {
      var turn := turns[k];
      assert turns[..k + 1][..k] == turns[..k];
      if turn.thread < |st.stacks| {
        var m := Next(st, turn.thread, turn.choice);
        if m.Some? {
          Effectuate(board, st, turn.thread, m.value.effect);
          LandKeepsShape(st, turn.thread, m.value.stack, m.value.effect);
          st := Land(st, turn.thread, m.value.stack, m.value.effect);
        }
      }
    }
    assert turns[..|turns|] == turns;
  }
}
