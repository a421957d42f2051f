/** Whole runs of a ring buffer (talk/base/stream.cc): any mix of its operations,
    what becomes of the bytes, and which events are posted. */
module FifoRuns {
  import opened Bytes
  import opened Streams
  import opened FifoBuffers

  /** What a user does. PutWindow writes through GetWriteBuffer, TakeWindow reads
      through GetReadData. */
  datatype Op =
    | OpRead(count: nat)
    | OpWrite(data: seq<byte>)
    | OpReadAt(count: nat, offset: nat)
    | OpWriteAt(data: seq<byte>, offset: nat)
    | TakeWindow(count: nat)
    | PutWindow(data: seq<byte>)
    | OpResize(size: nat)
    | OpClose

  /** What can be seen of a buffer. */
  datatype View = View(contents: seq<byte>, capacity: nat, events: seq<StreamEvent>) {
    predicate Empty() { contents == [] }
    predicate Full() { |contents| == capacity }
  }

  ghost function ViewOf(b: FifoBuffer): View
    requires b.Valid()
    reads b, b.buffer
  {
    View(b.Contents(), b.buffer.Length, b.events)
  }

  lemma Seen(b: FifoBuffer)
    requires b.Valid()
    ensures ViewOf(b) == View(b.Contents(), b.buffer.Length, b.events)
    ensures ViewOf(b).Full() == b.Full() && ViewOf(b).Empty() == (b.Contents() == [])
  {
  }

  datatype Level = Level(empty: bool, full: bool)

  function LevelOf(v: View): Level {
    Level(v.Empty(), v.Full())
  }

  /** The events that a change of level calls for. */
  function Changes(a: Level, b: Level): seq<StreamEvent> {
    (if a.empty && !b.empty then [ReadEvent] else []) + (if a.full && !b.full then [WriteEvent] else [])
  }

  datatype Move = Move(before: Level, after: Level, resize: bool)

  /** What the buffer tells of a move: nothing of a change of its capacity. */
  function Told(m: Move): seq<StreamEvent> {
    if m.resize then [] else Changes(m.before, m.after)
  }

  function AllTold(trace: seq<Move>): seq<StreamEvent> {
    if trace == [] then [] else AllTold(trace[..|trace| - 1]) + Told(trace[|trace| - 1])
  }

  function AllChanges(trace: seq<Move>): seq<StreamEvent> {
    if trace == [] then []
    else
      var m := trace[|trace| - 1];
      AllChanges(trace[..|trace| - 1]) + Changes(m.before, m.after)
  }

  /** A change of capacity keeps the contents. */
  predicate MoveOk(m: Move) { m.resize ==> m.before.empty == m.after.empty }

  /** A full buffer grew. */
  predicate Grew(m: Move) { m.resize && m.before.full && !m.after.full }

  function Grown(trace: seq<Move>): nat {
    if trace == [] then 0 else Grown(trace[..|trace| - 1]) + if Grew(trace[|trace| - 1]) then 1 else 0
  }

  lemma {:induction false} UntoldAreGrown(trace: seq<Move>)
    requires forall i :: 0 <= i < |trace| ==> MoveOk(trace[i])
    ensures |AllChanges(trace)| == |AllTold(trace)| + Grown(trace)
    ensures Grown(trace) == 0 <==> forall i :: 0 <= i < |trace| ==> !Grew(trace[i])
    ensures Grown(trace) == 0 ==> AllChanges(trace) == AllTold(trace)
  {
    if trace != [] {
      var front, m := trace[..|trace| - 1], trace[|trace| - 1];
      UntoldAreGrown(front);
      assert trace == front + [m];
    }
  }

  /** The exact law of the events over any run: they are those that the changes of
      level call for exactly when no full buffer was made larger. */
  lemma EventsTellAllExactlyWhen(trace: seq<Move>)
    requires forall i :: 0 <= i < |trace| ==> MoveOk(trace[i])
    ensures AllTold(trace) == AllChanges(trace) <==> forall i :: 0 <= i < |trace| ==> !Grew(trace[i])
  {
    UntoldAreGrown(trace);
  }

  // -------------------------------------------------------------- operations

  function MoveOf(op: Op, v: View, w: View): Move {
    Move(LevelOf(v), LevelOf(w), op.OpResize?)
  }

  /** What an operation may do: what was there and what was put in is what was
      taken out and what is there now, and the events are those it tells of. */
  predicate Done(op: Op, v: View, w: View, put: seq<byte>, got: seq<byte>) {
    && v.contents + put == got + w.contents
    && put <= (if op.OpWrite? || op.PutWindow? then op.data else [])
    && (got != [] ==> op.OpRead? || op.TakeWindow?)
    && w.events == v.events + Told(MoveOf(op, v, w))
    && (op.OpResize? ==> w.contents == v.contents && (Grew(MoveOf(op, v, w)) <==> v.Full() && op.size > v.capacity))
  }

  lemma DonePut(op: Op, v: View, w: View, put: seq<byte>)
    requires op.OpWrite? || op.PutWindow?
    requires put <= op.data && w.contents == v.contents + put && w.capacity == v.capacity
    requires w.events == v.events + if v.Empty() && !w.Empty() then [ReadEvent] else []
    requires |w.contents| <= w.capacity
    ensures Done(op, v, w, put, [])
  {
  }

  lemma DoneGot(op: Op, v: View, w: View, got: seq<byte>)
    requires op.OpRead? || op.TakeWindow?
    requires v.contents == got + w.contents && w.capacity == v.capacity
    requires w.events == v.events + if v.Full() && !w.Full() then [WriteEvent] else []
    ensures Done(op, v, w, [], got)
  {
  }

  lemma DoneKept(op: Op, v: View)
    requires !op.OpResize?
    ensures Done(op, v, v, [], [])
  {
  }

  lemma DoneResize(op: Op, v: View, w: View, ok: bool)
    requires op.OpResize? && ok == (|v.contents| <= op.size) && |v.contents| <= v.capacity
    requires w.contents == v.contents && w.events == v.events && w.capacity == if ok then op.size else v.capacity
    ensures Done(op, v, w, [], [])
  {
  }

  lemma Fits(b: FifoBuffer)
    requires b.Valid()
    ensures |b.Contents()| <= b.buffer.Length
  {
  }

  method NewArray(data: seq<byte>) returns (p: array<byte>)
    ensures fresh(p) && p[..] == data
  {
    p := new byte[|data|](i requires 0 <= i < |data| => data[i]);
  }

  /** Bytes are written into the window, and then made part of the contents. */
  method Put(b: FifoBuffer, data: seq<byte>) returns (n: nat)
    requires b.Valid()
    modifies b, b.buffer
    ensures b.Valid() && b.buffer == old(b.buffer) && n <= |data|
    ensures Done(PutWindow(data), old(ViewOf(b)), ViewOf(b), data[..n], [])
  {
    hide *;
    n := 0;
    ghost var v := ViewOf(b);
    Seen(b);
    if b.buffer.Length == 0 {
      DoneKept(PutWindow(data), v);
      return;
    }
    var ok, position, size := b.GetWriteBuffer();
    Seen(b);
    if !ok {
      DoneKept(PutWindow(data), v);
      return;
    }
    n := Least(|data|, size);
    var p := NewArray(data[..n]);
    FillWindow(b, p, n, position, size);
    b.ConsumeWriteBuffer(n);
    Seen(b);
    Fits(b);
    assert data[..n] <= data;
    DonePut(PutWindow(data), v, ViewOf(b), data[..n]);
  }

  function Least(a: nat, b: nat): (r: nat)
    ensures r <= a && r <= b && (r == a || r == b)
  {
    Min(a, b)
  }

  /** The user writes into the window. */
  method FillWindow(b: FifoBuffer, p: array<byte>, n: nat, position: nat, size: nat)
    requires b.Valid() && p != b.buffer && n == p.Length <= size
    requires IsWindow(b.buffer.Length, b.readPosition, b.dataLength, position, size)
    modifies b.buffer
    ensures b.Valid() && b.Contents() == old(b.Contents()) && |b.Contents()| + n <= b.buffer.Length
    ensures b.Ring()[|b.Contents()|..|b.Contents()| + n] == p[..]
  {
    ghost var ring := b.buffer[..];
    Copy(b.buffer, position, p, 0, n);
    assert p[0..n] == p[..];
    WindowIsAhead(ring, b.buffer[..], b.readPosition, b.dataLength, position, n);
    hide Rotated;
  }

  method Take(b: FifoBuffer, count: nat) returns (got: seq<byte>)
    requires b.Valid()
    modifies b
    ensures b.Valid() && b.buffer == old(b.buffer)
    ensures Done(TakeWindow(count), old(ViewOf(b)), ViewOf(b), [], got)
  {
    hide *;
    got := [];
    ghost var v := ViewOf(b);
    Seen(b);
    if b.buffer.Length == 0 {
      DoneKept(TakeWindow(count), v);
      return;
    }
    var position, size := b.GetReadData();
    var n := Least(count, size);
    got := b.buffer[position..position + n];
    assert got == b.buffer[position..position + size][..n] == v.contents[..n];
    b.ConsumeReadData(n);
    Seen(b);
    DoneGot(TakeWindow(count), v, ViewOf(b), got);
  }

  method Read(b: FifoBuffer, count: nat) returns (got: seq<byte>)
    requires b.Valid()
    modifies b
    ensures b.Valid() && b.buffer == old(b.buffer)
    ensures Done(OpRead(count), old(ViewOf(b)), ViewOf(b), [], got)
  {
    hide *;
    ghost var v := ViewOf(b);
    Seen(b);
    var p := new byte[count](_ => 0);
    var result, copy := b.Read(p, count);
    got := p[..copy];
    Seen(b);
    DoneGot(OpRead(count), v, ViewOf(b), got);
  }

  method Write(b: FifoBuffer, data: seq<byte>) returns (put: seq<byte>)
    requires b.Valid()
    modifies b, b.buffer
    ensures b.Valid() && b.buffer == old(b.buffer)
    ensures Done(OpWrite(data), old(ViewOf(b)), ViewOf(b), put, [])
  {
    hide *;
    ghost var v := ViewOf(b);
    Seen(b);
    var p := NewArray(data);
    var result, copy := b.Write(p, |data|);
    put := data[..copy];
    assert p[..copy] == put;
    Seen(b);
    Fits(b);
    DonePut(OpWrite(data), v, ViewOf(b), put);
  }

  method Resize(b: FifoBuffer, size: nat)
    requires b.Valid()
    modifies b
    ensures b.Valid() && (b.buffer == old(b.buffer) || fresh(b.buffer))
    ensures Done(OpResize(size), old(ViewOf(b)), ViewOf(b), [], [])
  {
    hide *;
    ghost var v := ViewOf(b);
    Seen(b);
    Fits(b);
    var ok := b.SetCapacity(size);
    Seen(b);
    DoneResize(OpResize(size), v, ViewOf(b), ok);
  }

  /** What goes by an offset, and Close, leave contents and events alone. */
  method Aside(b: FifoBuffer, op: Op)
    requires b.Valid() && (op.OpReadAt? || op.OpWriteAt? || op.OpClose?)
    modifies b, b.buffer
    ensures b.Valid() && b.buffer == old(b.buffer)
    ensures Done(op, old(ViewOf(b)), ViewOf(b), [], [])
  {
    hide *;
    Seen(b);
    DoneKept(op, ViewOf(b));
    match op {
      case OpReadAt(count, offset) =>
        var p := new byte[count](_ => 0);
        var result, copy := b.ReadOffset(p, count, offset);
      case OpWriteAt(data, offset) =>
        var p := NewArray(data);
        var result, copy := b.WriteOffset(p, |data|, offset);
      case OpClose =>
        b.Close();
    }
    Seen(b);
  }

  method Perform(b: FifoBuffer, op: Op) returns (put: seq<byte>, got: seq<byte>)
    requires b.Valid()
    modifies b, b.buffer
    ensures b.Valid() && (b.buffer == old(b.buffer) || fresh(b.buffer))
    ensures Done(op, old(ViewOf(b)), ViewOf(b), put, got)
  {
    hide *;
    put, got := [], [];
    match op {
      case OpRead(count) => got := Read(b, count);
      case OpWrite(data) => put := Write(b, data);
      case OpReadAt(_, _) => Aside(b, op);
      case OpWriteAt(_, _) => Aside(b, op);
      case TakeWindow(count) => got := Take(b, count);
      case PutWindow(data) =>
        var n := Put(b, data);
        put := data[..n];
      case OpResize(size) => Resize(b, size);
      case OpClose => Aside(b, op);
    }
  }

  /** Any run. No byte is lost, invented or moved past another, and the events are
      what the levels call for exactly when no full buffer was made larger. */
  method Session(capacity: nat, ops: seq<Op>) returns (b: FifoBuffer, put: seq<byte>, got: seq<byte>, ghost views: seq<View>)
    ensures b.Valid() && put == got + b.Contents()
    ensures Chained(ops, views) && views[0] == View([], capacity, []) && views[|ops|] == ViewOf(b)
    ensures b.events == AllTold(Trace(ops, views))
    ensures b.events == AllChanges(Trace(ops, views)) <==>
            forall i :: 0 <= i < |ops| && ops[i].OpResize? && views[i].Full() ==> ops[i].size <= views[i].capacity
  {
    hide *;
    b := new FifoBuffer(capacity);
    Seen(b);
    put, got, views := [], [], [ViewOf(b)];
    Before(views);
    for k := 0 to |ops|
      invariant fresh(b) && fresh(b.buffer) && b.Valid() && |views| == k + 1 && views[k] == ViewOf(b)
      invariant put == got + views[k].contents
      invariant Chained(ops[..k], views) && views[0] == View([], capacity, [])
    {
      hide *;
      var more, less := Perform(b, ops[k]);
      Onward(ops, views, ViewOf(b), more, less);
      InOrder(put, got, views[k], ops[k], ViewOf(b), more, less);
      put, got, views := put + more, got + less, views + [ViewOf(b)];
    }
    assert ops[..|ops|] == ops;
    Seen(b);
    Answered(ops, views);
  }

  /** The exception, met: a buffer without room gets some, and the writer is not
      told. */
  method GrownUntold() returns (b: FifoBuffer, ghost moves: seq<Move>)
    ensures b.Valid() && b.events == AllTold(moves) && b.events != AllChanges(moves)
    ensures |moves| == 1 && Grew(moves[0])
  {
    var put, got;
    ghost var views;
    var ops := [OpResize(1)];
    b, put, got, views := Session(0, ops);
    moves := Trace(ops, views);
    assert Step(ops[0], views[0], views[1]);
    assert ops[0].OpResize? && views[0].Full() && ops[0].size > views[0].capacity;
  }

  // --------------------------------------------------------------- whole runs

  function Trace(ops: seq<Op>, views: seq<View>): (t: seq<Move>)
    requires |views| == |ops| + 1
    ensures |t| == |ops| && forall i :: 0 <= i < |t| ==> t[i] == MoveOf(ops[i], views[i], views[i + 1])
  {
    if ops == [] then [] else
      var k := |ops| - 1;
      Trace(ops[..k], views[..k + 1]) + [MoveOf(ops[k], views[k], views[k + 1])]
  }

  /** Each operation did what it may between its two views, from an empty log on. */
  ghost predicate Chained(ops: seq<Op>, views: seq<View>) {
    && |views| == |ops| + 1 && views[0].events == []
    && forall i :: 0 <= i < |ops| ==> Step(ops[i], views[i], views[i + 1])
  }

  ghost predicate Step(op: Op, v: View, w: View) {
    exists put, got :: Done(op, v, w, put, got)
  }

  lemma Before(views: seq<View>)
    requires |views| == 1 && views[0].events == []
    ensures Chained([], views)
  {
  }

  lemma Onward(ops: seq<Op>, views: seq<View>, w: View, put: seq<byte>, got: seq<byte>)
    requires 0 < |views| <= |ops| && Chained(ops[..|views| - 1], views)
    requires Done(ops[|views| - 1], views[|views| - 1], w, put, got)
    ensures Chained(ops[..|views|], views + [w])
  {
    hide Done;
    var k := |views| - 1;
    var now, all := ops[..k + 1], views + [w];
    assert Step(ops[k], views[k], w);
    hide Step;
    forall i | 0 <= i < k + 1
      ensures Step(now[i], all[i], all[i + 1])
    {
      if i < k {
        assert now[i] == ops[..k][i] && all[i] == views[i] && all[i + 1] == views[i + 1];
      }
    }
  }

  lemma {:induction false} ToldInViews(ops: seq<Op>, views: seq<View>)
    requires Chained(ops, views)
    ensures views[|ops|].events == AllTold(Trace(ops, views))
  {
    if ops != [] {
      var k := |ops| - 1;
      ToldInViews(ops[..k], views[..k + 1]);
      var t := Trace(ops, views);
      assert t[..k] == Trace(ops[..k], views[..k + 1]);
      var put, got :| Done(ops[k], views[k], views[k + 1], put, got);
    }
  }

  lemma Answered(ops: seq<Op>, views: seq<View>)
    requires Chained(ops, views)
    ensures views[|ops|].events == AllTold(Trace(ops, views))
    ensures views[|ops|].events == AllChanges(Trace(ops, views)) <==>
            forall i :: 0 <= i < |ops| && ops[i].OpResize? && views[i].Full() ==> ops[i].size <= views[i].capacity
  {
    hide AllTold, AllChanges, Grown, Trace;
    var t := Trace(ops, views);
    ToldInViews(ops, views);
    forall i | 0 <= i < |t|
      ensures MoveOk(t[i])
      ensures Grew(t[i]) <==> ops[i].OpResize? && views[i].Full() && ops[i].size > views[i].capacity
    {
      var put, got :| Done(ops[i], views[i], views[i + 1], put, got);
    }
    EventsTellAllExactlyWhen(t);
  }

  lemma InOrder(put: seq<byte>, got: seq<byte>, v: View, op: Op, w: View, more: seq<byte>, less: seq<byte>)
    requires put == got + v.contents && Done(op, v, w, more, less)
    ensures put + more == (got + less) + w.contents
  {
    assert put + more == got + (v.contents + more) == got + (less + w.contents) == (got + less) + w.contents;
  }
}
