/** The heap of delayed messages (talk/base/messagequeue.h): the order of its
    elements, and the operations of the heap in its vector. */
module DelayHeap {
  import opened TimeUtils

  /** The serial stands for the data pointer, which tells messages apart. No
      handler is handler 0. */
  datatype Message = Message(serial: nat, handler: nat, id: uint32)

  const ANY_ID: uint32 := 0xFFFFFFFF
  const DISPOSE_ID: uint32 := 0xFFFFFFFE

  predicate Match(m: Message, handler: nat, id: uint32) {
    (handler == 0 || handler == m.handler) && (id == ANY_ID || id == m.id)
  }

  datatype Delayed = Delayed(trigger: uint32, num: uint32, msg: Message)

  /** operator<: the message to come out first is the largest. */
  predicate Less(a: Delayed, b: Delayed) {
    b.trigger < a.trigger || (b.trigger == a.trigger && b.num < a.num)
  }

  function Parent(i: int): int { (i - 1) / 2 }

  predicate InOrder(c: seq<Delayed>, i: int)
    requires i < |c|
  {
    i <= 0 || !Less(c[Parent(i)], c[i])
  }

  predicate Heap(c: seq<Delayed>) {
    forall i :: 0 <= i < |c| ==> InOrder(c, i)
  }

  lemma {:induction false} TopIsFirst(c: seq<Delayed>, i: nat)
    requires Heap(c) && i < |c|
    ensures !Less(c[0], c[i])
  {
    if i > 0 {
      TopIsFirst(c, Parent(i));
      assert InOrder(c, i);
    }
  }

  function Swap(c: seq<Delayed>, i: nat, j: nat): (r: seq<Delayed>)
    requires i < |c| && j < |c|
    ensures |r| == |c| && multiset(r) == multiset(c)
  {
    c[i := c[j]][j := c[i]]
  }

  // ----------------------------------------------------------------- push_heap

  /** In order but for the path up from i: there the children of i are in order
      with its parent. */
  predicate HeapBut(c: seq<Delayed>, i: int) {
    && (forall k :: 0 <= k < |c| && k != i ==> InOrder(c, k))
    && (forall k :: 0 < k < |c| && Parent(k) == i > 0 ==> !Less(c[Parent(i)], c[k]))
  }

  function SiftUp(c: seq<Delayed>, i: nat): (r: seq<Delayed>)
    requires i < |c| && HeapBut(c, i)
    ensures |r| == |c| && multiset(r) == multiset(c) && Heap(r)
    decreases i
  {
    if InOrder(c, i) then c
    else
      SwappedUp(c, i);
      SiftUp(Swap(c, i, Parent(i)), Parent(i))
  }

  lemma SwappedUp(c: seq<Delayed>, i: nat)
    requires i < |c| && HeapBut(c, i) && !InOrder(c, i)
    ensures HeapBut(Swap(c, i, Parent(i)), Parent(i))
  {
    var p := Parent(i);
    var r := Swap(c, i, p);
    forall k | 0 <= k < |r| && k != p
      ensures InOrder(r, k)
    {
      assert InOrder(c, k) || k == i;
    }
    forall k | 0 < k < |r| && Parent(k) == p > 0
      ensures !Less(r[Parent(p)], r[k])
    {
      assert InOrder(c, p);
      assert k != i ==> InOrder(c, k);
    }
  }

  function Push(c: seq<Delayed>, x: Delayed): (r: seq<Delayed>)
    requires Heap(c)
    ensures Heap(r) && multiset(r) == multiset(c) + multiset{x}
  {
    assert forall k :: 0 <= k < |c| ==> InOrder(c, k);
    assert forall k :: 0 <= k < |c| ==> InOrder(c + [x], k) == InOrder(c, k);
    SiftUp(c + [x], |c|)
  }

  // ------------------------------------------------------- pop_heap, make_heap

  /** In order from place i on, looking up no further than place from, but for
      the children of i. */
  predicate HeapBelow(c: seq<Delayed>, from: int, i: int) {
    && (forall k :: 0 < k < |c| && from <= Parent(k) != i ==> InOrder(c, k))
    && (forall k :: 0 < k < |c| && Parent(k) == i > 0 && from <= Parent(i) ==> !Less(c[Parent(i)], c[k]))
  }

  predicate HeapFrom(c: seq<Delayed>, from: int) {
    forall k :: 0 < k < |c| && from <= Parent(k) ==> InOrder(c, k)
  }

  /** The child that comes first. */
  function Child(c: seq<Delayed>, i: nat): (j: nat)
    requires 2 * i + 1 < |c|
    ensures i < j < |c| && Parent(j) == i
  {
    if 2 * i + 2 < |c| && Less(c[2 * i + 1], c[2 * i + 2]) then 2 * i + 2 else 2 * i + 1
  }

  function SiftDown(c: seq<Delayed>, from: nat, i: nat): (r: seq<Delayed>)
    requires from <= i < |c| && HeapBelow(c, from, i)
    ensures |r| == |c| && multiset(r) == multiset(c) && HeapFrom(r, from)
    decreases |c| - i
  {
    if 2 * i + 1 >= |c| then c
    else
      var j := Child(c, i);
      if !Less(c[i], c[j]) then
        SiftedDown(c, from, i);
        c
      else
        SwappedDown(c, from, i);
        SiftDown(Swap(c, i, j), from, j)
  }

  lemma OtherChild(c: seq<Delayed>, i: nat, k: nat)
    requires 0 < k < |c| && Parent(k) == i
    ensures 2 * i + 1 < |c| && !Less(c[Child(c, i)], c[k])
  {
    assert k == 2 * i + 1 || k == 2 * i + 2;
  }

  lemma SiftedDown(c: seq<Delayed>, from: nat, i: nat)
    requires from <= i && 2 * i + 1 < |c| && HeapBelow(c, from, i) && !Less(c[i], c[Child(c, i)])
    ensures HeapFrom(c, from)
  {
    forall k | 0 < k < |c| && from <= Parent(k)
      ensures InOrder(c, k)
    {
      if Parent(k) == i { OtherChild(c, i, k); }
    }
  }

  lemma SwappedDown(c: seq<Delayed>, from: nat, i: nat)
    requires from <= i && 2 * i + 1 < |c| && HeapBelow(c, from, i) && Less(c[i], c[Child(c, i)])
    ensures HeapBelow(Swap(c, i, Child(c, i)), from, Child(c, i))
  {
    var j := Child(c, i);
    var r := Swap(c, i, j);
    forall k | 0 < k < |r| && from <= Parent(k) != j
      ensures InOrder(r, k)
    {
      if Parent(k) == i {
        OtherChild(c, i, k);
      } else {
        assert InOrder(c, k);
      }
    }
    forall k | 0 < k < |r| && Parent(k) == j
      ensures !Less(r[Parent(j)], r[k])
    {
      assert InOrder(c, k);
    }
  }

  /** pop_heap and pop_back. */
  function Pop(c: seq<Delayed>): (r: seq<Delayed>)
    requires Heap(c) && c != []
    ensures Heap(r) && |r| == |c| - 1 && multiset(c) == multiset(r) + multiset{c[0]}
  {
    var n := |c| - 1;
    assert c == c[..n] + [c[n]];
    if n == 0 then []
    else
      PoppedBelow(c);
      var d := c[..n][0 := c[n]];
      assert multiset(d) == multiset(c[..n]) - multiset{c[0]} + multiset{c[n]};
      FromTop(SiftDown(d, 0, 0));
      SiftDown(d, 0, 0)
  }

  lemma PoppedBelow(c: seq<Delayed>)
    requires Heap(c) && |c| > 1
    ensures HeapBelow(c[..|c| - 1][0 := c[|c| - 1]], 0, 0)
  {
    var d := c[..|c| - 1][0 := c[|c| - 1]];
    forall k | 0 < k < |d| && Parent(k) != 0
      ensures InOrder(d, k)
    {
      assert InOrder(c, k);
    }
  }

  lemma FromTop(c: seq<Delayed>)
    requires HeapFrom(c, 0)
    ensures Heap(c)
  {
  }

  /** make_heap: from the last parent up. */
  function Reheap(c: seq<Delayed>, n: nat): (r: seq<Delayed>)
    requires n <= |c| && HeapFrom(c, n)
    ensures Heap(r) && |r| == |c| && multiset(r) == multiset(c)
    decreases n
  {
    if n == 0 then
      FromTop(c);
      c
    else
      assert HeapBelow(c, n - 1, n - 1);
      Reheap(SiftDown(c, n - 1, n - 1), n - 1)
  }

  lemma LeavesInOrder(c: seq<Delayed>)
    ensures HeapFrom(c, |c| / 2)
  {
  }
}
