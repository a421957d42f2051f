/** Flow (talk/base/stream.cc): pumps bytes from a source to a sink through a
    buffer, and can be resumed. */
module Flows {
  import opened Streams
  import opened Options
  import opened Bytes

  /** What a call of the source, or of the sink, comes to. A source that has
      more than it was asked for gives only that much. */
  datatype ReadTurn = Gave(bytes: seq<byte>) | Ended | Refused(result: StreamResult)
  datatype WriteTurn = Took(count: nat) | Denied(result: StreamResult)

  /** A stream whose behaviour is given; when that is used up it blocks. */
  class Source {
    var turns: seq<ReadTurn>
    ghost var given: seq<byte>
    ghost var answers: seq<StreamResult>

    method Read(buffer: array<byte>, pos: nat, room: nat) returns (result: StreamResult, count: nat)
      requires pos + room <= buffer.Length
      modifies this, buffer
      ensures count <= room && (result != Success ==> count == 0)
      ensures given == old(given) + buffer[pos..pos + count] && answers == old(answers) + [result]
      ensures forall i :: 0 <= i < buffer.Length && !(pos <= i < pos + count) ==> buffer[i] == old(buffer[i])
      ensures |turns| < |old(turns)| || (turns == old(turns) && result == Block)
    {
      if turns == [] {
        answers := answers + [Block];
        return Block, 0;
      }
      var turn := turns[0];
      turns := turns[1..];
      match turn
      case Ended =>
        answers := answers + [Eos];
        return Eos, 0;
      case Refused(r) =>
        result, count := if r.Success? then Error else r, 0;
        answers := answers + [result];
        assert buffer[pos..pos + count] == [];
      case Gave(bytes) =>
        result, count := Success, if |bytes| < room then |bytes| else room;
        answers := answers + [Success];
        for k := 0 to count
          invariant forall i :: 0 <= i < buffer.Length && !(pos <= i < pos + k) ==> buffer[i] == old(buffer[i])
          invariant turns == old(turns)[1..] && given == old(given) && answers == old(answers) + [Success]
        {
          buffer[pos + k] := bytes[k];
        }
        given := given + buffer[pos..pos + count];
    }
  }

  class Sink {
    var turns: seq<WriteTurn>
    ghost var taken: seq<byte>
    ghost var answers: seq<StreamResult>

    method Write(buffer: array<byte>, pos: nat, size: nat) returns (result: StreamResult, count: nat)
      requires pos + size <= buffer.Length
      modifies this
      ensures count <= size && (result != Success ==> count == 0)
      ensures taken == old(taken) + buffer[pos..pos + count] && answers == old(answers) + [result]
      ensures |turns| < |old(turns)| || (turns == old(turns) && result == Block)
    {
      if turns == [] {
        answers := answers + [Block];
        return Block, 0;
      }
      var turn := turns[0];
      turns := turns[1..];
      match turn
      case Denied(r) =>
        result, count := if r.Success? then Error else r, 0;
        answers := answers + [result];
      case Took(n) =>
        result, count := Success, if n < size then n else size;
        answers := answers + [Success];
        taken := taken + buffer[pos..pos + count];
    }
  }

  /** What was pending and then was read is what was written and then is
      pending. */
  predicate Conserved(pending: seq<byte>, given: seq<byte>, taken: seq<byte>, left: seq<byte>) {
    pending + given == taken + left
  }

  /** The calls since then all succeeded, but for the last if result did not. */
  predicate Came(before: seq<StreamResult>, after: seq<StreamResult>, result: StreamResult) {
    if result == Success then before <= after && forall i :: |before| <= i < |after| ==> after[i] == Success
    else
      && before < after && after[|after| - 1] == result
      && forall i :: |before| <= i < |after| - 1 ==> after[i] == Success
  }

  lemma Assoc(a: seq<byte>, b: seq<byte>, c: seq<byte>)
    ensures (a + b) + c == a + (b + c)
  {
  }

  lemma AtFirst(pending: seq<byte>, answers: seq<StreamResult>)
    ensures Conserved(pending, [], [], pending) && Came(answers, answers, Success)
  {
    assert pending + [] == [] + pending;
  }

  lemma CameOn(a: seq<StreamResult>, b: seq<StreamResult>, c: seq<StreamResult>, result: StreamResult)
    requires Came(a, b, Success) && Came(b, c, result)
    ensures Came(a, c, result)
  {
  }

  lemma MoreGiven(pending: seq<byte>, given: seq<byte>, taken: seq<byte>, left: seq<byte>, more: seq<byte>)
    requires Conserved(pending, given, taken, left)
    ensures Conserved(pending, given + more, taken, left + more)
  {
    assert pending + (given + more) == (pending + given) + more == (taken + left) + more == taken + (left + more);
  }

  lemma MoreTaken(pending: seq<byte>, given: seq<byte>, taken: seq<byte>, more: seq<byte>, left: seq<byte>)
    requires Conserved(pending, given, taken, more + left)
    ensures Conserved(pending, given, taken + more, left)
  {
    assert taken + (more + left) == (taken + more) + left;
  }

  /** Flow that is called again and again with what it left neither loses nor
      reorders anything: two calls conserve like one. */
  lemma Resumed(pending: seq<byte>, given1: seq<byte>, taken1: seq<byte>, middle: seq<byte>,
                given2: seq<byte>, taken2: seq<byte>, left: seq<byte>)
    requires Conserved(pending, given1, taken1, middle) && Conserved(middle, given2, taken2, left)
    ensures Conserved(pending, given1 + given2, taken1 + taken2, left)
  {
    MoreGiven(pending, given1, taken1, middle, given2);
    MoreTaken(pending, given1 + given2, taken1, taken2, left);
  }

  /** memmove to the front. */
  method MoveFront(buffer: array<byte>, from: nat, n: nat)
    requires from + n <= buffer.Length
    modifies buffer
    ensures buffer[..n] == old(buffer[from..from + n])
  {
    for k := 0 to n
      invariant forall i :: 0 <= i < k ==> buffer[i] == old(buffer[from + i])
      invariant forall i :: k <= i < buffer.Length ==> buffer[i] == old(buffer[i])
    {
      buffer[k] := buffer[from + k];
    }
    ghost var to, was := buffer[..n], old(buffer[from..from + n]);
    forall k: nat | k < n
      ensures to[k] == was[k]
    {
      assert to[k] == buffer[k];
    }
  }

  /** Reads until the buffer is full, at the end of the stream, or on an error.
      The ghost result is what was read. */
  method Fill(source: Source, buffer: array<byte>, start: nat)
    returns (result: StreamResult, readPos: nat, ghost more: seq<byte>)
    requires start <= buffer.Length
    modifies source, buffer
    ensures start <= readPos <= buffer.Length && buffer[..readPos] == old(buffer[..start]) + more
    ensures source.given == old(source.given) + more
    ensures Came(old(source.answers), source.answers, result)
    ensures result == Success ==> readPos == buffer.Length
    ensures |source.turns| <= |old(source.turns)|
    ensures result != Block && start < buffer.Length ==> |source.turns| < |old(source.turns)|
  {
    result, readPos, more := Success, start, [];
    while readPos < buffer.Length
      invariant start <= readPos <= buffer.Length && result == Success
      invariant buffer[..readPos] == old(buffer[..start]) + more
      invariant source.given == old(source.given) + more
      invariant Came(old(source.answers), source.answers, Success)
      invariant |source.turns| <= |old(source.turns)|
      invariant readPos > start ==> |source.turns| < |old(source.turns)|
      decreases |source.turns|
    {
      ghost var before := buffer[..readPos];
      var count;
      result, count := source.Read(buffer, readPos, buffer.Length - readPos);
      assert buffer[..readPos] == before;
      if result != Success { return; }
      ghost var got := buffer[readPos..readPos + count];
      readPos := readPos + count;
      assert buffer[..readPos] == before + got;
      more := more + got;
    }
  }

  /** Writes until the buffer is empty or on an error. */
  method Drain(buffer: array<byte>, readPos: nat, sink: Sink) returns (result: StreamResult, writePos: nat)
    requires readPos <= buffer.Length
    modifies sink
    ensures writePos <= readPos && sink.taken == old(sink.taken) + buffer[..writePos]
    ensures Came(old(sink.answers), sink.answers, result)
    ensures result == Success <==> writePos == readPos
    ensures |sink.turns| <= |old(sink.turns)|
    ensures result == Success && readPos > 0 ==> |sink.turns| < |old(sink.turns)|
  {
    result, writePos := Success, 0;
    while writePos < readPos
      invariant writePos <= readPos && result == Success
      invariant sink.taken == old(sink.taken) + buffer[..writePos]
      invariant Came(old(sink.answers), sink.answers, Success)
      invariant |sink.turns| <= |old(sink.turns)|
      invariant writePos > 0 ==> |sink.turns| < |old(sink.turns)|
      decreases |sink.turns|
    {
      var count;
      result, count := sink.Write(buffer, writePos, readPos - writePos);
      assert buffer[..writePos + count] == buffer[..writePos] + buffer[writePos..writePos + count];
      if result != Success { return; }
      writePos := writePos + count;
    }
  }

  /** Flow. When the caller gives a length it says how much is pending, and how
      much is left pending in the end; without one nothing is pending at first,
      and what is left is lost. The ghost results are what was read and written
      and what is lost. */
  method Flow(source: Source, buffer: array<byte>, sink: Sink, dataLen: Option<nat>)
    returns (result: StreamResult, left: Option<nat>, ghost given: seq<byte>, ghost taken: seq<byte>, ghost lost: seq<byte>)
    requires buffer.Length > 0 && (dataLen.Some? ==> dataLen.value <= buffer.Length)
    modifies source, sink, buffer
    ensures source.given == old(source.given) + given && sink.taken == old(sink.taken) + taken
    ensures left.Some? == dataLen.Some? && (left.Some? ==> left.value <= buffer.Length && lost == [])
    ensures Conserved(if dataLen.Some? then old(buffer[..dataLen.value]) else [], given, taken,
                      if left.Some? then buffer[..left.value] else lost)
    ensures result == Success ==> lost == [] && (left.Some? ==> left.value == 0)
    ensures result == Success ==>
      Came(old(source.answers), source.answers, Eos) && Came(old(sink.answers), sink.answers, Success)
    ensures result != Success ==>
      || (result != Eos && Came(old(source.answers), source.answers, result) && Came(old(sink.answers), sink.answers, Success))
      || (Came(old(sink.answers), sink.answers, result)
          && (Came(old(source.answers), source.answers, Success) || Came(old(source.answers), source.answers, Eos)))
  {
    ghost var pending := if dataLen.Some? then buffer[..dataLen.value] else [];
    given, taken, lost := [], [], [];
    AtFirst(pending, source.answers);
    AtFirst(pending, sink.answers);
    hide *;
    var readPos := if dataLen.Some? then dataLen.value else 0;
    var endOfStream := false;
    assert buffer[..readPos] == pending;
    while !endOfStream
      invariant readPos <= buffer.Length
      invariant source.given == old(source.given) + given && sink.taken == old(sink.taken) + taken
      invariant Conserved(pending, given, taken, buffer[..readPos])
      invariant Came(old(source.answers), source.answers, if endOfStream then Eos else Success)
      invariant Came(old(sink.answers), sink.answers, Success)
      invariant endOfStream ==> readPos == 0
      decreases !endOfStream, |source.turns| + |sink.turns|
    {
      ghost var more, before, asked, answered := [], buffer[..readPos], source.answers, sink.answers;
      result, readPos, more := Fill(source, buffer, readPos);
      CameOn(old(source.answers), asked, source.answers, result);
      MoreGiven(pending, given, taken, before, more);
      Assoc(old(source.given), given, more);
      given := given + more;
      if result == Eos {
        endOfStream := true;
      } else if result != Success {
        left := if dataLen.Some? then Some(readPos) else None;
        lost := if dataLen.Some? then [] else buffer[..readPos];
        return;
      }
      var writePos;
      result, writePos := Drain(buffer, readPos, sink);
      CameOn(old(sink.answers), answered, sink.answers, result);
      ghost var rest := buffer[writePos..readPos];
      assert buffer[..readPos] == buffer[..writePos] + rest;
      MoreTaken(pending, given, taken, buffer[..writePos], rest);
      Assoc(old(sink.taken), taken, buffer[..writePos]);
      taken := taken + buffer[..writePos];
      if result != Success {
        if dataLen.Some? {
          left := Some(readPos - writePos);
          if writePos > 0 {
            MoveFront(buffer, writePos, readPos - writePos);
          }
          assert buffer[..left.value] == rest;
        } else {
          left, lost := None, rest;
        }
        return;
      }
      readPos := 0;
    }
    result, left := Success, if dataLen.Some? then Some(0) else None;
  }
}
