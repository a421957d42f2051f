/** The ring buffer of talk/base/stream.cc, as a bounded sequence of bytes. */
module FifoBuffers {
  import opened Streams
  import opened Bytes

  datatype StreamEvent = ReadEvent | WriteEvent

  // ------------------------------------------------------------------ the ring

  /** The ring seen from place r on, once around. */
  function Rotated(s: seq<byte>, r: nat): (t: seq<byte>)
    requires r <= |s|
    ensures |t| == |s|
  {
    s[r..] + s[..r]
  }

  lemma WrapOnce(r: int, k: int, n: int)
    requires 0 <= r < n && 0 <= k <= n
    ensures (r + k) % n == if r + k < n then r + k else r + k - n
  {
    if r + k >= n { Around(r + k - n, n); }
  }

  lemma Around(x: int, n: int)
    requires 0 <= x < n
    ensures (x + n) % n == x
  {
    var q := (x + n) / n;
    Product(q, n);
    Product(q - 2, n);
    assert x + n == q * n + (x + n) % n;
    assert (q - 2) * n == q * n - 2 * n;
  }

  lemma Product(q: int, n: int)
    requires n > 0
    ensures if q >= 0 then q * n >= 0 else q * n < 0
    ensures q > 0 ==> q * n >= n
  {
  }

  lemma RotatedAt(s: seq<byte>, r: nat, k: nat)
    requires r < |s| && k < |s|
    ensures Rotated(s, r)[k] == s[(r + k) % |s|]
  {
    WrapOnce(r, k, |s|);
  }

  /** To turn the ring on. */
  lemma RotatedOn(s: seq<byte>, r: nat, k: nat)
    requires r < |s| && k <= |s|
    ensures Rotated(s, (r + k) % |s|) == Rotated(s, r)[k..] + Rotated(s, r)[..k]
  {
    WrapOnce(r, k, |s|);
    var q := (r + k) % |s|;
    if r + k < |s| {
      assert s[r..][k..] == s[q..];
      assert Rotated(s, r)[k..] == s[q..] + s[..r];
      assert Rotated(s, r)[..k] == s[r..q];
      assert s[..q] == s[..r] + s[r..q];
    } else {
      assert Rotated(s, r)[k..] == s[q..r];
      assert Rotated(s, r)[..k] == s[r..] + s[..q];
      assert s[q..] == s[q..r] + s[r..];
    }
  }

  /** s with t in the place of what was at k. */
  function Spliced(s: seq<byte>, k: nat, t: seq<byte>): (r: seq<byte>)
    requires k + |t| <= |s|
    ensures |r| == |s|
  {
    s[..k] + t + s[k + |t|..]
  }

  function Min(a: nat, b: nat): (r: nat)
    ensures r <= a && r <= b && (r == a || r == b)
  {
    if a < b then a else b
  }

  class FifoBuffer {
    var buffer: array<byte>
    var readPosition: nat
    var dataLength: nat
    var closed: bool
    var events: seq<StreamEvent>

    ghost predicate Valid()
      reads this
    {
      dataLength <= buffer.Length && if buffer.Length == 0 then readPosition == 0 else readPosition < buffer.Length
    }

    /** All places, from the read position on. */
    ghost function Ring(): seq<byte>
      reads this, buffer
      requires Valid()
    {
      Rotated(buffer[..], readPosition)
    }

    /** What was written and not read yet. */
    ghost function Contents(): seq<byte>
      reads this, buffer
      requires Valid()
    {
      Ring()[..dataLength]
    }

    constructor (length: nat)
      ensures Valid() && fresh(buffer) && buffer.Length == length && Contents() == [] && !closed && events == []
    {
      buffer := new byte[length](_ => 0);
      readPosition, dataLength, closed, events := 0, 0, false, [];
    }

    // ------------------------------------------------------- offset operations

    /** Two copies at most: to the end of the array, and from its start. */
    method ReadOffset(p: array<byte>, bytes: nat, offset: nat) returns (result: StreamResult, copy: nat)
      requires Valid() && p != buffer && bytes <= p.Length
      modifies p
      ensures offset >= dataLength ==> result == (if closed then Eos else Block) && copy == 0 && p[..] == old(p[..])
      ensures offset < dataLength ==>
        && result == Success && copy == Min(bytes, dataLength - offset)
        && p[..copy] == Contents()[offset..offset + copy]
        && forall i :: copy <= i < p.Length ==> p[i] == old(p[i])
    {
      hide *;
      copy := 0;
      if offset >= dataLength {
        return if closed then Eos else Block, 0;
      }
      copy := Min(bytes, dataLength - offset);
      FromOffset(offset, copy);
      var position := (readPosition + offset) % buffer.Length;
      CopyOut(p, buffer, position, copy);
      result := Success;
    }

    lemma FromOffset(offset: nat, copy: nat)
      requires Valid() && offset + copy <= dataLength && offset < dataLength
      ensures offset + copy <= |Contents()| && copy <= buffer.Length && 0 < buffer.Length
      ensures (readPosition + offset) % buffer.Length < buffer.Length
      ensures Contents()[offset..offset + copy] == Wrapped(buffer[..], (readPosition + offset) % buffer.Length, copy)
    {
      hide Rotated, Min, Wrapped;
      WrapOnce(readPosition, offset, buffer.Length);
      RingSlice(buffer[..], readPosition, offset, copy);
      SliceOfFront(Ring(), dataLength, offset, copy);
    }

    method WriteOffset(p: array<byte>, bytes: nat, offset: nat) returns (result: StreamResult, copy: nat)
      requires Valid() && p != buffer && bytes <= p.Length
      modifies buffer
      ensures Valid()
      ensures closed ==> result == Eos && copy == 0 && Ring() == old(Ring())
      ensures !closed && dataLength + offset >= buffer.Length ==> result == Block && copy == 0 && Ring() == old(Ring())
      ensures !closed && dataLength + offset < buffer.Length ==>
        && result == Success && copy == Min(bytes, buffer.Length - dataLength - offset)
        && Ring() == Spliced(old(Ring()), dataLength + offset, p[..copy])
      ensures Contents() == old(Contents())
    {
      hide Rotated, Spliced, Filled, Min;
      copy := 0;
      if closed {
        return Eos, 0;
      }
      if dataLength + offset >= buffer.Length {
        return Block, 0;
      }
      ghost var before := buffer[..];
      copy := Min(bytes, buffer.Length - dataLength - offset);
      WrapOnce(readPosition, dataLength + offset, buffer.Length);
      var position := (readPosition + (dataLength + offset)) % buffer.Length;
      CopyIn(buffer, position, p, copy);
      RingSplice(before, buffer[..], readPosition, dataLength + offset, p[..copy]);
      SplicedFront(Rotated(before, readPosition), dataLength + offset, p[..copy], dataLength);
      result := Success;
    }

    // ------------------------------------------------------- the stream itself

    ghost predicate Full()
      reads this, buffer
      requires Valid()
    {
      |Contents()| == buffer.Length
    }

    /** Takes bytes from the front. Tells the writer when the buffer stops being
        full. */
    method Read(p: array<byte>, bytes: nat) returns (result: StreamResult, copy: nat)
      requires Valid() && p != buffer && bytes <= p.Length
      modifies this`readPosition, this`dataLength, this`events, p
      ensures Valid()
      ensures old(Contents()) == [] ==> result == (if closed then Eos else Block) && copy == 0 && Contents() == []
      ensures old(Contents()) != [] ==> result == Success && copy == Min(bytes, |old(Contents())|)
      ensures p[..copy] == old(Contents())[..copy] && Contents() == old(Contents())[copy..]
      ensures forall i :: copy <= i < p.Length ==> p[i] == old(p[i])
      ensures events == old(events) + if old(Full()) && !Full() then [WriteEvent] else []
    {
      hide *;
      Measured();
      var wasWritable := dataLength < buffer.Length;
      ghost var contents := Contents();
      result, copy := ReadOffset(p, bytes, 0);
      assert p[..copy] == contents[..copy];
      if result == Success {
        ghost var ring, r, n := buffer[..], readPosition, dataLength;
        Shown();
        readPosition := (readPosition + copy) % buffer.Length;
        dataLength := dataLength - copy;
        if !wasWritable && copy > 0 {
          events := events + [WriteEvent];
        }
        Advanced(ring, r, n, copy);
      }
      Measured();
    }

    lemma Shown()
      requires Valid()
      ensures readPosition <= buffer.Length && dataLength <= buffer.Length
      ensures buffer.Length > 0 ==> readPosition < buffer.Length
      ensures Contents() == Rotated(buffer[..], readPosition)[..dataLength]
    {
    }

    /** After k bytes were taken. */
    lemma Advanced(ring: seq<byte>, r: nat, n: nat, k: nat)
      requires ring == buffer[..] && r < |ring| && k <= n <= |ring|
      requires readPosition == (r + k) % |ring| && dataLength == n - k
      ensures Valid() && Contents() == Rotated(ring, r)[..n][k..]
    {
      Consumed(ring, r, n, k);
      hide Rotated;
    }

    /** Adds bytes at the end, as many as there is room for. Tells the reader
        when the buffer stops being empty. */
    method Write(p: array<byte>, bytes: nat) returns (result: StreamResult, copy: nat)
      requires Valid() && p != buffer && bytes <= p.Length
      modifies this`dataLength, this`events, buffer
      ensures Valid()
      ensures closed ==> result == Eos && copy == 0
      ensures !closed && old(Full()) ==> result == Block && copy == 0
      ensures !closed && !old(Full()) ==> result == Success && copy == Min(bytes, buffer.Length - |old(Contents())|)
      ensures Contents() == old(Contents()) + p[..copy]
      ensures events == old(events) + if old(Contents()) == [] && Contents() != [] then [ReadEvent] else []
    {
      var wasReadable := dataLength > 0;
      result, copy := WriteOffset(p, bytes, 0);
      if result == Success {
        SplicedEnd(old(Ring()), dataLength, p[..copy]);
        dataLength := dataLength + copy;
        if !wasReadable && copy > 0 {
          events := events + [ReadEvent];
        }
      }
    }

    method Close()
      requires Valid()
      modifies `closed
      ensures closed && Valid() && Contents() == old(Contents())
    {
      closed := true;
    }

    // -------------------------------------------------------- zero-copy windows

    /** The window to read from: the front of the contents, up to the end of the
        array. */
    method GetReadData() returns (position: nat, size: nat)
      requires Valid()
      ensures position + size <= buffer.Length && size <= |Contents()| && (size == 0 <==> Contents() == [])
      ensures buffer[position..position + size] == Contents()[..size]
      ensures size == |Contents()| || position + size == buffer.Length
    {
      size := if readPosition + dataLength <= buffer.Length then dataLength else buffer.Length - readPosition;
      position := readPosition;
    }

    /** Without any capacity this, and GetWriteBuffer, would divide by zero. */
    method ConsumeReadData(size: nat)
      requires Valid() && size <= |Contents()| && buffer.Length > 0
      modifies `readPosition, `dataLength, `events
      ensures Valid() && Contents() == old(Contents())[size..]
      ensures events == old(events) + if old(Full()) && !Full() then [WriteEvent] else []
    {
      hide *;
      Measured();
      Shown();
      ghost var ring, r, n := buffer[..], readPosition, dataLength;
      var wasWritable := dataLength < buffer.Length;
      readPosition := (readPosition + size) % buffer.Length;
      dataLength := dataLength - size;
      if !wasWritable && size > 0 {
        events := events + [WriteEvent];
      }
      Advanced(ring, r, n, size);
      Measured();
    }

    /** The window to write to: it holds nothing that is still to be read, and
        begins where the contents end. There is none when the stream is closed. */
    method GetWriteBuffer() returns (ok: bool, position: nat, size: nat)
      requires Valid() && (closed || buffer.Length > 0)
      modifies `readPosition
      ensures Valid() && Contents() == old(Contents()) && ok == !closed
      ensures ok ==> IsWindow(buffer.Length, readPosition, dataLength, position, size) && (size == 0 <==> Full())
      ensures ok && Contents() == [] ==> position == 0 && size == buffer.Length
    {
      if closed {
        return false, 0, 0;
      }
      if dataLength == 0 {
        readPosition := 0;
      }
      WrapOnce(readPosition, dataLength, buffer.Length);
      position := (readPosition + dataLength) % buffer.Length;
      size := if position > readPosition || dataLength == 0 then buffer.Length - position else readPosition - position;
      ok := true;
    }

    /** What was put behind the contents becomes part of them. */
    method ConsumeWriteBuffer(size: nat)
      requires Valid() && size <= buffer.Length - |Contents()|
      modifies `dataLength, `events
      ensures Valid() && Contents() == old(Contents() + Ring()[|Contents()|..|Contents()| + size])
      ensures events == old(events) + if old(Contents()) == [] && Contents() != [] then [ReadEvent] else []
    {
      var wasReadable := dataLength > 0;
      dataLength := dataLength + size;
      if !wasReadable && size > 0 {
        events := events + [ReadEvent];
      }
    }

    /** Moves the contents to the front of a new array. Nobody is told, though a
        full buffer that grows stops being full. */
    method SetCapacity(size: nat) returns (ok: bool)
      requires Valid()
      modifies `buffer, `readPosition
      ensures Valid() && Contents() == old(Contents()) && ok == (|Contents()| <= size)
      ensures buffer.Length == if ok then size else old(buffer.Length)
      ensures buffer == old(buffer) || fresh(buffer)
      ensures events == old(events)
      ensures old(Full()) && !Full() <==> old(Full()) && size > old(buffer.Length)
    {
      hide *;
      Measured();
      if dataLength > size {
        return false;
      }
      if size != buffer.Length {
        var next := new byte[size](_ => 0);
        CopyOut(next, buffer, readPosition, dataLength);
        Whole();
        buffer := next;
        readPosition := 0;
        Fronted();
        Measured();
      }
      ok := true;
    }

    lemma Measured()
      requires Valid()
      ensures readPosition <= buffer.Length && dataLength <= buffer.Length
      ensures |Contents()| == dataLength && (Full() <==> dataLength == buffer.Length)
    {
    }

    lemma Whole()
      requires Valid()
      ensures readPosition <= buffer.Length && dataLength <= buffer.Length
      ensures Contents() == Wrapped(buffer[..], readPosition, dataLength)
    {
      hide *;
      Measured();
      Shown();
      if dataLength > 0 {
        FromOffset(0, dataLength);
        WrapOnce(readPosition, 0, buffer.Length);
        assert Contents()[0..dataLength] == Contents();
      } else {
        assert Contents() == [];
      }
    }

    lemma Fronted()
      requires readPosition == 0 && dataLength <= buffer.Length
      ensures Valid() && Contents() == buffer[..dataLength]
    {
      Unrotated(buffer[..], dataLength);
    }
  }

  lemma SliceOfFront(s: seq<byte>, n: nat, from: nat, k: nat)
    requires from + k <= n <= |s|
    ensures s[..n][from..from + k] == s[from..from + k]
  {
  }

  lemma Unrotated(s: seq<byte>, n: nat)
    requires n <= |s|
    ensures Rotated(s, 0)[..n] == s[..n]
  {
  }

  /** What Read does to the ring. */
  lemma Consumed(s: seq<byte>, r: nat, n: nat, k: nat)
    requires r < |s| && k <= n <= |s|
    ensures (r + k) % |s| < |s| && Rotated(s, (r + k) % |s|)[..n - k] == Rotated(s, r)[..n][k..]
  {
    RotatedOn(s, r, k);
  }

  lemma SplicedEnd(s: seq<byte>, k: nat, t: seq<byte>)
    requires k + |t| <= |s|
    ensures Spliced(s, k, t)[..k + |t|] == s[..k] + t
  {
  }

  /** A stretch of the array that begins where the contents of length n end, and
      reaches neither around the end nor into them. */
  predicate IsWindow(length: nat, r: nat, n: nat, position: nat, size: nat) {
    r < length && n + size <= length && position + size <= length && position == (r + n) % length
  }

  /** To write into a window leaves the contents alone, and shows behind them. */
  lemma WindowIsAhead(before: seq<byte>, after: seq<byte>, r: nat, n: nat, position: nat, size: nat)
    requires |before| == |after| && IsWindow(|before|, r, n, position, size)
    requires r <= |after| && n + size <= |after| && position + size <= |after|
    requires forall i :: 0 <= i < |before| && !(position <= i < position + size) ==> after[i] == before[i]
    ensures Rotated(after, r)[..n] == Rotated(before, r)[..n]
    ensures Rotated(after, r)[n..n + size] == after[position..position + size]
  {
    hide *;
    var a, b := Rotated(after, r), Rotated(before, r);
    forall k: nat | k < n
      ensures a[k] == b[k]
    {
      KeptAt(before, after, r, n, position, size, k);
    }
    var front, window := a[n..n + size], after[position..position + size];
    forall i: nat | i < size
      ensures front[i] == window[i]
    {
      AheadAt(after, r, n, position, size, i);
    }
    assert a[..n] == b[..n];
  }

  lemma KeptAt(before: seq<byte>, after: seq<byte>, r: nat, n: nat, position: nat, size: nat, k: nat)
    requires |before| == |after| && IsWindow(|before|, r, n, position, size) && k < n
    requires forall i :: 0 <= i < |before| && !(position <= i < position + size) ==> after[i] == before[i]
    ensures Rotated(after, r)[k] == Rotated(before, r)[k]
  {
    hide Rotated;
    NotInWindow(|before|, r, n, position, size, k);
    RotatedAt(after, r, k);
    RotatedAt(before, r, k);
  }

  lemma AheadAt(after: seq<byte>, r: nat, n: nat, position: nat, size: nat, i: nat)
    requires IsWindow(|after|, r, n, position, size) && i < size
    ensures Rotated(after, r)[n + i] == after[position + i]
  {
    InWindow(|after|, r, n, position, size, i);
    RotatedAt(after, r, n + i);
  }

  lemma NotInWindow(length: nat, r: nat, n: nat, position: nat, size: nat, k: nat)
    requires IsWindow(length, r, n, position, size) && k < n
    ensures !(position <= (r + k) % length < position + size)
  {
    WrapOnce(r, k, length);
    WrapOnce(r, n, length);
  }

  lemma InWindow(length: nat, r: nat, n: nat, position: nat, size: nat, i: nat)
    requires IsWindow(length, r, n, position, size) && i < size
    ensures (r + (n + i)) % length == position + i
  {
    WrapOnce(r, n + i, length);
    WrapOnce(r, n, length);
  }

  lemma SplicedFront(s: seq<byte>, k: nat, t: seq<byte>, n: nat)
    requires n <= k && k + |t| <= |s|
    ensures Spliced(s, k, t)[..n] == s[..n]
  {
  }

  /** memcpy. */
  method Copy(dst: array<byte>, dpos: nat, src: array<byte>, spos: nat, n: nat)
    requires dst != src && dpos + n <= dst.Length && spos + n <= src.Length
    modifies dst
    ensures dst[dpos..dpos + n] == src[spos..spos + n]
    ensures forall k :: 0 <= k < dst.Length && !(dpos <= k < dpos + n) ==> dst[k] == old(dst[k])
  {
    for i := 0 to n
      invariant forall k :: dpos <= k < dpos + i ==> dst[k] == src[spos + (k - dpos)]
      invariant forall k :: 0 <= k < dst.Length && !(dpos <= k < dpos + i) ==> dst[k] == old(dst[k])
    {
      dst[dpos + i] := src[spos + i];
    }
    ghost var to, from := dst[dpos..dpos + n], src[spos..spos + n];
    forall k: nat | k < n
      ensures to[k] == from[k]
    {
      assert to[k] == dst[dpos + k];
    }
  }

  method CopyOut(p: array<byte>, ring: array<byte>, position: nat, copy: nat)
    requires p != ring && position <= ring.Length && copy <= ring.Length && copy <= p.Length
    modifies p
    ensures p[..copy] == Wrapped(ring[..], position, copy)
    ensures forall k :: copy <= k < p.Length ==> p[k] == old(p[k])
  {
    hide *;
    var tail := Min(copy, ring.Length - position);
    Copy(p, 0, ring, position, tail);
    ghost var first := p[0..tail];
    Copy(p, tail, ring, 0, copy - tail);
    assert p[0..tail] == first;
    InTwo(ring[..], position, copy, p[..copy]);
  }

  method CopyIn(ring: array<byte>, position: nat, p: array<byte>, copy: nat)
    requires p != ring && position < ring.Length && copy <= ring.Length && copy <= p.Length
    modifies ring
    ensures Filled(old(ring[..]), ring[..], position, p[..copy])
  {
    var tail := Min(copy, ring.Length - position);
    Copy(ring, position, p, 0, tail);
    ghost var first := ring[position..position + tail];
    Copy(ring, 0, p, tail, copy - tail);
    ghost var after, t := ring[..], p[..copy];
    assert first == t[..tail];
    assert after[position..position + tail] == first by {
      assert forall k :: position <= k < position + tail ==> ring[k] == first[k - position];
    }
    assert after[..copy - tail] == ring[0..copy - tail] == t[tail..];
  }

  /** t was put in from place q on, around the end. */
  predicate Filled(before: seq<byte>, after: seq<byte>, q: nat, t: seq<byte>) {
    && |before| == |after| && q < |before| && |t| <= |before|
    && var tail := Min(|t|, |before| - q);
       && after[q..q + tail] == t[..tail] && after[..|t| - tail] == t[tail..]
       && forall i :: 0 <= i < |before| && !(q <= i < q + tail) && !(i < |t| - tail) ==> after[i] == before[i]
  }

  /** n bytes from q on, going on at the start. */
  function Wrapped(s: seq<byte>, q: nat, n: nat): (r: seq<byte>)
    requires q <= |s| && n <= |s|
    ensures |r| == n
  {
    var tail := Min(n, |s| - q);
    s[q..q + tail] + s[..n - tail]
  }

  lemma InTwo(s: seq<byte>, q: nat, n: nat, t: seq<byte>)
    requires q <= |s| && n <= |s| && |t| == n
    requires var tail := Min(n, |s| - q); t[..tail] == s[q..q + tail] && t[tail..] == s[..n - tail]
    ensures t == Wrapped(s, q, n)
  {
    var tail := Min(n, |s| - q);
    assert t == t[..tail] + t[tail..];
  }

  /** A stretch of the ring is one or two stretches of the array. */
  lemma RingSlice(s: seq<byte>, r: nat, k: nat, n: nat)
    requires r < |s| && k + n <= |s|
    ensures (r + k) % |s| < |s| && Rotated(s, r)[k..k + n] == Wrapped(s, (r + k) % |s|, n)
  {
    WrapOnce(r, k, |s|);
  }

  lemma RingSplice(before: seq<byte>, after: seq<byte>, r: nat, k: nat, t: seq<byte>)
    requires r < |before| && k < |before| && k + |t| <= |before| && Filled(before, after, (r + k) % |before|, t)
    ensures Rotated(after, r) == Spliced(Rotated(before, r), k, t)
  {
    hide Rotated, Spliced;
    var a, b := Rotated(after, r), Spliced(Rotated(before, r), k, t);
    forall i: nat | i < |before|
      ensures a[i] == b[i]
    {
      SplicedAt(before, after, r, k, t, i);
    }
  }

  lemma SplicedAt(before: seq<byte>, after: seq<byte>, r: nat, k: nat, t: seq<byte>, i: nat)
    requires r < |before| && k < |before| && k + |t| <= |before| && Filled(before, after, (r + k) % |before|, t) && i < |before|
    ensures Rotated(after, r)[i] == Spliced(Rotated(before, r), k, t)[i]
  {
    hide Rotated;
    var q := (r + k) % |before|;
    var tail := Min(|t|, |before| - q);
    WrapOnce(r, k, |before|);
    WrapOnce(r, i, |before|);
    RotatedAt(after, r, i);
    RotatedAt(before, r, i);
    assert forall j :: 0 <= j < tail ==> after[q..q + tail][j] == t[..tail][j];
    assert forall j :: 0 <= j < |t| - tail ==> after[..|t| - tail][j] == t[tail..][j];
  }
}
