/** The queue of posted and delayed messages (talk/base/messagequeue.cc). */
module MessageQueues {
  import opened Options
  import opened TimeUtils
  import opened DelayHeap

  const FOREVER := -1

  function Msgs(c: seq<Delayed>): seq<Message> {
    if c == [] then [] else [c[0].msg] + Msgs(c[1..])
  }

  function Kept(s: seq<Message>, handler: nat, id: uint32): seq<Message> {
    if s == [] then []
    else
      var n := |s| - 1;
      Kept(s[..n], handler, id) + if Match(s[n], handler, id) then [] else [s[n]]
  }

  function Matching(s: seq<Message>, handler: nat, id: uint32): seq<Message> {
    if s == [] then []
    else
      var n := |s| - 1;
      Matching(s[..n], handler, id) + if Match(s[n], handler, id) then [s[n]] else []
  }

  function KeptDelayed(s: seq<Delayed>, handler: nat, id: uint32): (r: seq<Delayed>)
    ensures |r| <= |s|
  {
    if s == [] then []
    else
      var n := |s| - 1;
      KeptDelayed(s[..n], handler, id) + if Match(s[n].msg, handler, id) then [] else [s[n]]
  }

  function MatchingDelayed(s: seq<Delayed>, handler: nat, id: uint32): seq<Delayed> {
    if s == [] then []
    else
      var n := |s| - 1;
      MatchingDelayed(s[..n], handler, id) + if Match(s[n].msg, handler, id) then [s[n]] else []
  }

  // ---------------------------------------------------------- conservation laws

  lemma {:induction false} MsgsAppend(c: seq<Delayed>, d: seq<Delayed>)
    ensures Msgs(c + d) == Msgs(c) + Msgs(d)
  {
    if c == [] {
      assert c + d == d;
    } else {
      assert (c + d)[1..] == c[1..] + d;
      MsgsAppend(c[1..], d);
    }
  }

  lemma Removed<T>(s: seq<T>, i: nat)
    requires i < |s|
    ensures s == s[..i] + [s[i]] + s[i + 1..]
    ensures multiset(s) == multiset(s[..i] + s[i + 1..]) + multiset{s[i]}
  {
    assert s == s[..i] + [s[i]] + s[i + 1..];
  }

  lemma MsgsRemoved(d: seq<Delayed>, i: nat)
    requires i < |d|
    ensures multiset(Msgs(d)) == multiset(Msgs(d[..i] + d[i + 1..])) + multiset{d[i].msg}
  {
    Removed(d, i);
    MsgsAppend(d[..i], [d[i]]);
    MsgsAppend(d[..i] + [d[i]], d[i + 1..]);
    MsgsAppend(d[..i], d[i + 1..]);
    assert Msgs([d[i]]) == [d[i].msg];
  }

  /** The messages depend only on which delayed messages there are. */
  lemma {:induction false} MsgsOfBag(c: seq<Delayed>, d: seq<Delayed>)
    requires multiset(c) == multiset(d)
    ensures multiset(Msgs(c)) == multiset(Msgs(d))
    decreases |c|
  {
    if c == [] {
      assert |multiset(d)| == |d|;
    } else {
      assert c[0] in multiset(d);
      var i :| 0 <= i < |d| && d[i] == c[0];
      Removed(d, i);
      Removed(c, 0);
      MsgsRemoved(d, i);
      MsgsRemoved(c, 0);
      hide Msgs;
      var c', d' := c[..0] + c[1..], d[..i] + d[i + 1..];
      Cancel(multiset(c'), multiset(d'), c[0]);
      MsgsOfBag(c', d');
    }
  }

  lemma Cancel<T>(a: multiset<T>, b: multiset<T>, x: T)
    requires a + multiset{x} == b + multiset{x}
    ensures a == b
  {
    assert a == (a + multiset{x}) - multiset{x};
    assert b == (b + multiset{x}) - multiset{x};
  }

  lemma {:induction false} KeptAndMatching(s: seq<Message>, handler: nat, id: uint32)
    ensures multiset(s) == multiset(Kept(s, handler, id)) + multiset(Matching(s, handler, id))
  {
    if s != [] {
      var n := |s| - 1;
      KeptAndMatching(s[..n], handler, id);
      hide Match;
      assert s == s[..n] + [s[n]];
    }
  }

  lemma {:induction false} KeptAndMatchingDelayed(s: seq<Delayed>, handler: nat, id: uint32)
    ensures multiset(s) == multiset(KeptDelayed(s, handler, id)) + multiset(MatchingDelayed(s, handler, id))
  {
    if s != [] {
      var n := |s| - 1;
      KeptAndMatchingDelayed(s[..n], handler, id);
      hide Match;
      assert s == s[..n] + [s[n]];
    }
  }

  /** What is kept, and what is taken out: exactly the messages that do not
      match, and those that do. */
  lemma {:induction false} KeptExactly(s: seq<Message>, handler: nat, id: uint32, m: Message)
    ensures m in Kept(s, handler, id) <==> m in s && !Match(m, handler, id)
    ensures m in Matching(s, handler, id) <==> m in s && Match(m, handler, id)
    // any handler is number 0, any id is 2^32 - 1
    ensures m in Kept(s, handler, id) <==>
            m in s && ((handler != 0 && m.handler != handler) || (id != 0xFFFFFFFF && m.id != id))
  {
    if s != [] {
      var n := |s| - 1;
      KeptExactly(s[..n], handler, id, m);
      hide Match;
      assert s == s[..n] + [s[n]];
    }
  }

  lemma {:induction false} KeptDelayedExactly(s: seq<Delayed>, handler: nat, id: uint32, d: Delayed)
    ensures d in KeptDelayed(s, handler, id) <==>
            d in s && ((handler != 0 && d.msg.handler != handler) || (id != 0xFFFFFFFF && d.msg.id != id))
    ensures d in MatchingDelayed(s, handler, id) <==>
            d in s && (handler == 0 || d.msg.handler == handler) && (id == 0xFFFFFFFF || d.msg.id == id)
  {
    if s != [] {
      var n := |s| - 1;
      KeptDelayedExactly(s[..n], handler, id, d);
      assert s == s[..n] + [s[n]];
    }
  }

  /** What is kept, and what is taken, is in the order of before: both go piece by
      piece. */
  lemma {:induction false} KeptInOrder(s: seq<Message>, t: seq<Message>, handler: nat, id: uint32)
    ensures Kept(s + t, handler, id) == Kept(s, handler, id) + Kept(t, handler, id)
    ensures Matching(s + t, handler, id) == Matching(s, handler, id) + Matching(t, handler, id)
  {
    if t == [] {
      assert s + t == s;
    } else {
      var n := |t| - 1;
      KeptInOrder(s, t[..n], handler, id);
      hide Match;
      assert (s + t)[..|s + t| - 1] == s + t[..n] && (s + t)[|s + t| - 1] == t[n];
    }
  }

  function Gone(delivered: multiset<Message>, disposed: multiset<Message>, cleared: multiset<Message>): multiset<Message> {
    delivered + disposed + cleared
  }

  function Slot(peek: Option<Message>): multiset<Message> {
    if peek.Some? then multiset{peek.value} else multiset{}
  }

  /** Every accepted message is pending, delivered, disposed of or cleared, as
      often as it was accepted. */
  ghost predicate Accounted(accepted: multiset<Message>, peek: Option<Message>, msgq: seq<Message>, dmsgq: seq<Delayed>,
                            gone: multiset<Message>)
  {
    accepted == Slot(peek) + multiset(msgq) + multiset(Msgs(dmsgq)) + gone
  }

  lemma AccountPosted(a: multiset<Message>, p: Option<Message>, q: seq<Message>, d: seq<Delayed>, g: multiset<Message>, m: Message)
    requires Accounted(a, p, q, d, g)
    ensures Accounted(a + multiset{m}, p, q + [m], d, g)
  {
  }

  lemma AccountDelayed(a: multiset<Message>, p: Option<Message>, q: seq<Message>, d: seq<Delayed>, g: multiset<Message>,
                       r: seq<Delayed>, x: Delayed)
    requires Accounted(a, p, q, d, g) && multiset(r) == multiset(d) + multiset{x}
    ensures Accounted(a + multiset{x.msg}, p, q, r, g)
  {
    PushedMsgs(d, r, x);
  }

  lemma AccountDue(a: multiset<Message>, p: Option<Message>, q: seq<Message>, d: seq<Delayed>, g: multiset<Message>)
    requires Accounted(a, p, q, d, g) && Heap(d) && d != []
    ensures Accounted(a, p, q + [d[0].msg], Pop(d), g)
  {
    hide Pop;
    PushedMsgs(Pop(d), d, d[0]);
  }

  lemma AccountTaken(a: multiset<Message>, p: Option<Message>, q: seq<Message>, d: seq<Delayed>, g: multiset<Message>)
    requires Accounted(a, p, q, d, g) && q != []
    ensures Accounted(a, p, q[1..], d, g + multiset{q[0]})
  {
    assert q == [q[0]] + q[1..];
  }

  lemma AccountPeeked(a: multiset<Message>, q: seq<Message>, d: seq<Delayed>, g: multiset<Message>, m: Message)
    ensures Accounted(a, Some(m), q, d, g) <==> Accounted(a, None, q, d, g + multiset{m})
  {
  }

  function SlotMatching(peek: Option<Message>, handler: nat, id: uint32): seq<Message> {
    if peek.Some? && Match(peek.value, handler, id) then [peek.value] else []
  }

  function SlotKept(peek: Option<Message>, handler: nat, id: uint32): Option<Message> {
    if peek.Some? && Match(peek.value, handler, id) then None else peek
  }

  /** What Clear takes, in its order: from the peek slot, the queue, the heap. */
  function Takings(peek: Option<Message>, q: seq<Message>, d: seq<Delayed>, handler: nat, id: uint32): seq<Message> {
    SlotMatching(peek, handler, id) + Matching(q, handler, id) + Msgs(MatchingDelayed(d, handler, id))
  }

  /** What Clear takes, and what is left in the slot, in fields. */
  lemma TakenExactly(peek: Option<Message>, q: seq<Message>, d: seq<Delayed>, handler: nat, id: uint32, m: Message)
    ensures m in Takings(peek, q, d, handler, id) <==>
            && (handler == 0 || m.handler == handler) && (id == 0xFFFFFFFF || m.id == id)
            && (peek == Some(m) || m in q || m in Msgs(d))
    ensures SlotKept(peek, handler, id) == Some(m) <==>
            peek == Some(m) && ((handler != 0 && m.handler != handler) || (id != 0xFFFFFFFF && m.id != id))
  {
    hide Kept, Matching, KeptDelayed, MatchingDelayed, Msgs;
    KeptExactly(q, handler, id, m);
    MatchingMsgs(d, handler, id, m);
  }

  lemma {:induction false} MatchingMsgs(d: seq<Delayed>, handler: nat, id: uint32, m: Message)
    ensures m in Msgs(MatchingDelayed(d, handler, id)) <==>
            m in Msgs(d) && (handler == 0 || m.handler == handler) && (id == 0xFFFFFFFF || m.id == id)
  {
    if d != [] {
      var n := |d| - 1;
      MatchingMsgs(d[..n], handler, id, m);
      var taken := MatchingDelayed(d[..n], handler, id);
      MsgsAppend(d[..n], [d[n]]);
      MsgsAppend(taken, [d[n]]);
      assert d == d[..n] + [d[n]] && Msgs([d[n]]) == [d[n].msg];
      assert Msgs(d) == Msgs(d[..n]) + [d[n].msg];
      assert MatchingDelayed(d, handler, id) == if Match(d[n].msg, handler, id) then taken + [d[n]] else taken + [];
      assert taken + [] == taken;
    }
  }

  lemma AccountCleared(a: multiset<Message>, p: Option<Message>, q: seq<Message>, d: seq<Delayed>, g: multiset<Message>,
                       r: seq<Delayed>, handler: nat, id: uint32)
    requires Accounted(a, p, q, d, g) && multiset(r) == multiset(KeptDelayed(d, handler, id))
    ensures Accounted(a, SlotKept(p, handler, id), Kept(q, handler, id), r, g + multiset(Takings(p, q, d, handler, id)))
  {
    hide Kept, Matching, KeptDelayed, MatchingDelayed, Msgs, Match;
    var sm, qm, dm := SlotMatching(p, handler, id), Matching(q, handler, id), MatchingDelayed(d, handler, id);
    var kept := KeptDelayed(d, handler, id);
    KeptAndMatching(q, handler, id);
    KeptAndMatchingDelayed(d, handler, id);
    MsgsOfBag(r, kept);
    MsgsOfBag(d, kept + dm);
    MsgsAppend(kept, dm);
    Regroup(Slot(SlotKept(p, handler, id)), multiset(sm), multiset(Kept(q, handler, id)), multiset(qm),
            multiset(Msgs(r)), multiset(Msgs(dm)), g);
  }

  lemma Regroup(s: multiset<Message>, sm: multiset<Message>, q: multiset<Message>, qm: multiset<Message>,
                d: multiset<Message>, dm: multiset<Message>, g: multiset<Message>)
    ensures (s + sm) + (q + qm) + (d + dm) + g == s + q + d + (g + (sm + qm + dm))
  {
  }

  // ------------------------------------------------------------- what is due

  /** In the order in which they come out. */
  predicate Sorted(c: seq<Delayed>) {
    forall i, j :: 0 <= i < j < |c| ==> !Less(c[i], c[j])
  }

  /** What one scan of the delayed messages at a time moves, and what stays. */
  predicate Scanned(before: seq<Delayed>, now: uint32, moved: seq<Delayed>, after: seq<Delayed>) {
    && multiset(before) == multiset(moved) + multiset(after)
    && Sorted(moved)
    && (forall i :: 0 <= i < |moved| ==> !TimeIsLater(now, moved[i].trigger))
    && (forall i, j :: 0 <= i < |moved| && 0 <= j < |after| ==> !Less(moved[i], after[j]))
    && Heap(after) && (after != [] ==> TimeIsLater(now, after[0].trigger))
  }

  /** The triggers are near the clock, and no wrap lies between. */
  predicate Near(c: seq<Delayed>, now: uint32) {
    forall i :: 0 <= i < |c| ==> -HALF < c[i].trigger - now < HALF
  }

  /** What is due, as the scan sees it. */
  predicate Due(d: Delayed, now: uint32) { !TimeIsLater(now, d.trigger) }

  /** As plain numbers all triggers that are due come before all that are not. */
  predicate DueComeFirst(c: seq<Delayed>, now: uint32) {
    forall i, j :: 0 <= i < |c| && 0 <= j < |c| && Due(c[i], now) && !Due(c[j], now) ==> c[i].trigger < c[j].trigger
  }

  lemma FromBefore(before: seq<Delayed>, moved: seq<Delayed>, after: seq<Delayed>, d: Delayed)
    requires multiset(before) == multiset(moved) + multiset(after)
    ensures d in before <==> d in moved || d in after
  {
    assert d in before <==> d in multiset(before);
    assert d in moved <==> d in multiset(moved);
    assert d in after <==> d in multiset(after);
  }

  /** The order of a scan, in plain numbers: of two messages it moves the earlier has
      the smaller trigger, or the same and a number no larger; and so has every
      message it moves against every one that stays. */
  lemma ScanInOrder(before: seq<Delayed>, now: uint32, moved: seq<Delayed>, after: seq<Delayed>)
    requires Scanned(before, now, moved, after)
    ensures forall i, j :: 0 <= i < j < |moved| ==>
              moved[i].trigger < moved[j].trigger || (moved[i].trigger == moved[j].trigger && moved[i].num <= moved[j].num)
    ensures forall i, j :: 0 <= i < |moved| && 0 <= j < |after| ==>
              moved[i].trigger < after[j].trigger || (moved[i].trigger == after[j].trigger && moved[i].num <= after[j].num)
  {
    hide Heap;
  }

  /** Messages with one trigger come out in the order of their numbers, and none
      without those before it. */
  lemma NumbersInOrder(before: seq<Delayed>, now: uint32, moved: seq<Delayed>, after: seq<Delayed>, x: Delayed, y: Delayed)
    requires Scanned(before, now, moved, after)
    requires x in before && x.trigger == y.trigger && x.num < y.num && y in moved
    ensures x in moved
    ensures forall i, j :: 0 <= i < |moved| && 0 <= j < |moved| && moved[i] == x && moved[j] == y ==> i < j
  {
    ScanInOrder(before, now, moved, after);
    FromBefore(before, moved, after, x);
    var j :| 0 <= j < |moved| && moved[j] == y;
    assert x !in after;
  }

  /** The exact law of the scan, for any triggers and clock: nothing that is due
      stays behind exactly when what is due comes first as plain numbers. */
  lemma ScanMovesDueExactlyWhen(before: seq<Delayed>, now: uint32, moved: seq<Delayed>, after: seq<Delayed>)
    requires Scanned(before, now, moved, after)
    ensures (forall i :: 0 <= i < |after| ==> !Due(after[i], now)) <==> DueComeFirst(before, now)
  {
    hide Heap, TimeIsLater;
    if forall i :: 0 <= i < |after| ==> !Due(after[i], now) {
      forall i, j | 0 <= i < |before| && 0 <= j < |before| && Due(before[i], now) && !Due(before[j], now)
        ensures before[i].trigger < before[j].trigger
      {
        FromBefore(before, moved, after, before[i]);
        FromBefore(before, moved, after, before[j]);
        var k :| 0 <= k < |moved| && moved[k] == before[i];
        var l :| 0 <= l < |after| && after[l] == before[j];
        assert !Less(moved[k], after[l]);
      }
    }
    if i :| 0 <= i < |after| && Due(after[i], now) {
      TopIsFirst(after, i);
      FromBefore(before, moved, after, after[i]);
      FromBefore(before, moved, after, after[0]);
      var k :| 0 <= k < |before| && before[k] == after[i];
      var l :| 0 <= l < |before| && before[l] == after[0];
      assert Due(before[k], now) && !Due(before[l], now) && !(before[k].trigger < before[l].trigger);
    }
  }

  /** Near the clock, and without a wrap, it does: a scan moves exactly what is
      due. */
  lemma ScanMovesDue(before: seq<Delayed>, now: uint32, moved: seq<Delayed>, after: seq<Delayed>)
    requires Scanned(before, now, moved, after) && Near(before, now)
    ensures forall i :: 0 <= i < |moved| ==> moved[i].trigger <= now
    ensures forall i :: 0 <= i < |after| ==> after[i].trigger > now
  {
    forall d | d in before
      ensures Due(d, now) <==> d.trigger <= now
    {
      NoWrapPlain(now, d.trigger);
    }
    ScanMovesDueExactlyWhen(before, now, moved, after);
    forall i | 0 <= i < |moved|
      ensures moved[i].trigger <= now
    {
      FromBefore(before, moved, after, moved[i]);
    }
    forall i | 0 <= i < |after|
      ensures after[i].trigger > now
    {
      FromBefore(before, moved, after, after[i]);
    }
  }

  /** Across the wrap it does not: with one trigger just before the wrap and one
      just after, a clock between the two leaves the first behind the second,
      however the scan goes. */
  lemma WrapHidesDue(m: Message, moved: seq<Delayed>, after: seq<Delayed>)
    ensures var c := [Delayed(0x10, 1, m), Delayed(0xFFFFFFF0, 0, m)];
            && Heap(c) && Scanned(c, 0xFFFFFFF8, [], c)
            && (Scanned(c, 0xFFFFFFF8, moved, after) ==> exists i :: 0 <= i < |after| && Due(after[i], 0xFFFFFFF8))
  {
    var c := [Delayed(0x10, 1, m), Delayed(0xFFFFFFF0, 0, m)];
    assert Due(c[1], 0xFFFFFFF8) && !Due(c[0], 0xFFFFFFF8);
    if Scanned(c, 0xFFFFFFF8, moved, after) {
      ScanMovesDueExactlyWhen(c, 0xFFFFFFF8, moved, after);
    }
  }

  // ---------------------------------------------------------------- the queue

  /** What may happen while Get waits: a return from Wait, after what other
      threads did to the queue, at a new time. */
  datatype Deed = Posted(m: Message) | PostedAt(trigger: uint32, m: Message) | Cleared(handler: nat, id: uint32) | Quitted
  datatype Event = Event(deeds: seq<Deed>, ok: bool, now: uint32)

  /** One pass of Get: the queue and the heap before its scan, the clock, what
      the scan moved, and how many dispose messages were dropped. */
  datatype Pass = Pass(ready: seq<Message>, delayed: seq<Delayed>, now: uint32, moved: seq<Delayed>, skipped: nat)

  predicate Picked(pass: Pass, dmsgq: seq<Delayed>, msgq: seq<Message>, msg: Message) {
    var all := pass.ready + Msgs(pass.moved);
    && Scanned(pass.delayed, pass.now, pass.moved, dmsgq)
    && pass.skipped < |all| && (forall i :: 0 <= i < pass.skipped ==> all[i].id == DISPOSE_ID)
    && msg == all[pass.skipped] && msg.id != DISPOSE_ID && msgq == all[pass.skipped + 1..]
  }

  /** The pass found dispose messages at most. */
  predicate NothingReady(pass: Pass, dmsgq: seq<Delayed>) {
    var all := pass.ready + Msgs(pass.moved);
    && Scanned(pass.delayed, pass.now, pass.moved, dmsgq)
    && forall i :: 0 <= i < |all| ==> all[i].id == DISPOSE_ID
  }

  /** The first n waits went well, and after each there was time left of what was
      asked for. */
  predicate WentOn(events: seq<Event>, n: nat, cmsWait: int, start: uint32) {
    n <= |events| && forall k :: 0 <= k < n ==> events[k].ok && (cmsWait == -1 || TimeDiff(events[k].now, start) < cmsWait)
  }

  lemma WentOnGrows(events: seq<Event>, n: nat, cmsWait: int, start: uint32)
    requires n < |events| && WentOn(events, n, cmsWait, start)
    ensures events[n].ok && (cmsWait == FOREVER || TimeDiff(events[n].now, start) < cmsWait) ==> WentOn(events, n + 1, cmsWait, start)
  {
  }

  /** Every wait ends by itself when the time asked for is over. */
  predicate InTime(waits: seq<int>, events: seq<Event>, cmsWait: int, start: uint32) {
    && |waits| <= |events| + 1
    && forall k :: 0 <= k < |waits| && cmsWait >= 0 ==>
         0 <= waits[k] && (waits[k] == 0 || waits[k] <= cmsWait - TimeDiff(if k == 0 then start else events[k - 1].now, start))
  }

  lemma InTimeGrows(waits: seq<int>, next: int, events: seq<Event>, cmsWait: int, start: uint32, current: uint32)
    requires InTime(waits, events, cmsWait, start) && |waits| <= |events|
    requires current == if |waits| == 0 then start else events[|waits| - 1].now
    requires cmsWait >= 0 ==> 0 <= next && (next == 0 || next <= cmsWait - TimeDiff(current, start))
    ensures InTime(waits + [next], events, cmsWait, start)
  {
  }

  lemma NoWaitYet(events: seq<Event>, cmsWait: int, start: uint32)
    ensures InTime([], events, cmsWait, start) && WentOn(events, 0, cmsWait, start) && TimeDiff(start, start) == 0
  {
  }

  class MessageQueue {
    var msgq: seq<Message>
    var dmsgq: seq<Delayed>
    var nextNum: uint32
    var peek: Option<Message>
    var stop: bool
    var wakeUps: nat
    ghost var accepted: multiset<Message>
    ghost var delivered: multiset<Message>
    ghost var disposed: multiset<Message>
    ghost var cleared: multiset<Message>

    ghost predicate Valid()
      reads this
    {
      && Heap(dmsgq) && Accounted(accepted, peek, msgq, dmsgq, Gone(delivered, disposed, cleared))
      && (peek.Some? ==> peek.value.id != DISPOSE_ID)
    }

    constructor ()
      ensures Valid() && msgq == [] && dmsgq == [] && peek.None? && !stop
      ensures accepted == delivered == disposed == cleared == multiset{}
    {
      msgq, dmsgq, nextNum, peek, stop, wakeUps := [], [], 0, None, false, 0;
      accepted, delivered, disposed, cleared := multiset{}, multiset{}, multiset{}, multiset{};
    }

    method Quit()
      modifies `stop, `wakeUps
      ensures stop && wakeUps == old(wakeUps) + 1
    {
      stop := true;
      wakeUps := wakeUps + 1;
    }

    method Post(m: Message)
      requires Valid()
      modifies `msgq, `wakeUps, `accepted
      ensures Valid()
      ensures msgq == (if stop then old(msgq) else old(msgq) + [m])
      ensures accepted == (if stop then old(accepted) else old(accepted) + multiset{m})
      ensures wakeUps == (if stop then old(wakeUps) else old(wakeUps) + 1)
    {
      hide Accounted, Gone;
      if stop { return; }
      AccountPosted(accepted, peek, msgq, dmsgq, Gone(delivered, disposed, cleared), m);
      msgq := msgq + [m];
      accepted := accepted + multiset{m};
      wakeUps := wakeUps + 1;
    }

    method DoDelayPost(trigger: uint32, m: Message)
      requires Valid()
      modifies `dmsgq, `nextNum, `wakeUps, `accepted
      ensures Valid()
      ensures stop ==> dmsgq == old(dmsgq) && nextNum == old(nextNum) && accepted == old(accepted) && wakeUps == old(wakeUps)
      ensures !stop ==>
        && multiset(dmsgq) == multiset(old(dmsgq)) + multiset{Delayed(trigger, old(nextNum), m)}
        && nextNum == (old(nextNum) + 1) % WRAP && accepted == old(accepted) + multiset{m} && wakeUps == old(wakeUps) + 1
    {
      hide Accounted, Gone, Push, Heap;
      if stop { return; }
      var d := Delayed(trigger, nextNum, m);
      AccountDelayed(accepted, peek, msgq, dmsgq, Gone(delivered, disposed, cleared), Push(dmsgq, d), d);
      dmsgq := Push(dmsgq, d);
      nextNum := (nextNum + 1) % WRAP;
      accepted := accepted + multiset{m};
      wakeUps := wakeUps + 1;
    }

    /** The scan at the start of a pass: what is due goes behind what is ready. */
    method ScanDelayed(now: uint32) returns (delayNext: int, ghost moved: seq<Delayed>)
      requires Valid()
      modifies `msgq, `dmsgq
      ensures Valid()
      ensures Scanned(old(dmsgq), now, moved, dmsgq) && msgq == old(msgq) + Msgs(moved)
      ensures delayNext == (if dmsgq == [] then FOREVER else TimeDiff(dmsgq[0].trigger, now)) && delayNext >= FOREVER
    {
      hide Accounted, Gone, Pop, Heap, TimeIsLater, TimeDiff;
      delayNext := FOREVER;
      moved := [];
      ghost var before := dmsgq;
      while dmsgq != [] && !TimeIsLater(now, dmsgq[0].trigger)
        invariant Valid() && multiset(before) == multiset(moved) + multiset(dmsgq)
        invariant msgq == old(msgq) + Msgs(moved)
        invariant Sorted(moved) && forall i :: 0 <= i < |moved| ==> !TimeIsLater(now, moved[i].trigger)
        invariant forall i, j :: 0 <= i < |moved| && 0 <= j < |dmsgq| ==> !Less(moved[i], dmsgq[j])
        decreases |dmsgq|
      {
        var top := dmsgq[0];
        AccountDue(accepted, peek, msgq, dmsgq, Gone(delivered, disposed, cleared));
        PoppedAfter(moved, dmsgq);
        MsgsAppend(moved, [top]);
        assert Msgs([top]) == [top.msg];
        assert msgq + [top.msg] == old(msgq) + (Msgs(moved) + [top.msg]);
        msgq := msgq + [top.msg];
        dmsgq := Pop(dmsgq);
        moved := moved + [top];
      }
      if dmsgq != [] {
        LaterIsAhead(now, dmsgq[0].trigger);
        delayNext := TimeDiff(dmsgq[0].trigger, now);
      }
    }

    /** Clear. The matches are handed over in removed; the survivors keep their
        order, and the heap is a heap again. */
    method Clear(handler: nat, id: uint32) returns (removed: seq<Message>)
      requires Valid()
      modifies `msgq, `dmsgq, `peek, `cleared
      ensures Valid()
      ensures peek == SlotKept(old(peek), handler, id) && msgq == Kept(old(msgq), handler, id)
      ensures multiset(dmsgq) == multiset(KeptDelayed(old(dmsgq), handler, id))
      ensures removed == Takings(old(peek), old(msgq), old(dmsgq), handler, id)
      ensures cleared == old(cleared) + multiset(removed)
    {
      hide Accounted, Gone, Heap, Match, Reheap, HeapFrom, Kept, Matching, KeptDelayed, MatchingDelayed, Msgs;
      ghost var account := Gone(delivered, disposed, cleared);
      ghost var p, q, d := peek, msgq, dmsgq;
      removed := [];
      if peek.Some? && Match(peek.value, handler, id) {
        removed := [peek.value];
        peek := None;
      }
      var fromQueue := ClearQueue(handler, id);
      var fromHeap := ClearHeap(handler, id);
      removed := removed + fromQueue + Msgs(fromHeap);
      assert removed == Takings(p, q, d, handler, id);
      Reheaped(dmsgq);
      AccountCleared(accepted, p, q, d, account, Reheap(dmsgq, |dmsgq| / 2), handler, id);
      dmsgq := Reheap(dmsgq, |dmsgq| / 2);
      cleared := cleared + multiset(removed);
      GoneMore(delivered, disposed, old(cleared), multiset(removed));
    }

    method ClearQueue(handler: nat, id: uint32) returns (removed: seq<Message>)
      modifies `msgq
      ensures msgq == Kept(old(msgq), handler, id) && removed == Matching(old(msgq), handler, id)
    {
      hide Match;
      ghost var before := msgq;
      ghost var k := 0;
      removed := [];
      var it := 0;
      while it < |msgq|
        invariant k <= |before| && it <= |msgq|
        invariant msgq[..it] == Kept(before[..k], handler, id) && msgq[it..] == before[k..]
        invariant removed == Matching(before[..k], handler, id)
        decreases |before| - k
      {
        assert before[..k + 1][..k] == before[..k] && msgq[it] == before[k];
        assert msgq[it + 1..] == msgq[it..][1..] == before[k + 1..];
        if Match(msgq[it], handler, id) {
          removed := removed + [msgq[it]];
          msgq := msgq[..it] + msgq[it + 1..];
        } else {
          it := it + 1;
        }
        k := k + 1;
      }
      assert before[..k] == before && msgq[..it] == msgq;
    }

    /** The survivors are moved to the front of the vector, in place. */
    method ClearHeap(handler: nat, id: uint32) returns (removed: seq<Delayed>)
      modifies `dmsgq
      ensures dmsgq == KeptDelayed(old(dmsgq), handler, id) && removed == MatchingDelayed(old(dmsgq), handler, id)
    {
      hide Match;
      ghost var before := dmsgq;
      removed := [];
      var newEnd := 0;
      for it := 0 to |dmsgq|
        invariant |dmsgq| == |before| && newEnd <= it
        invariant dmsgq[..newEnd] == KeptDelayed(before[..it], handler, id) && dmsgq[it..] == before[it..]
        invariant removed == MatchingDelayed(before[..it], handler, id)
      {
        assert before[..it + 1][..it] == before[..it] && dmsgq[it] == before[it];
        assert dmsgq[it + 1..] == dmsgq[it..][1..] == before[it + 1..];
        if Match(dmsgq[it].msg, handler, id) {
          removed := removed + [dmsgq[it]];
        } else {
          dmsgq := dmsgq[newEnd := dmsgq[it]];
          newEnd := newEnd + 1;
        }
      }
      assert before[..|before|] == before;
      dmsgq := dmsgq[..newEnd];
    }

    /** Takes the front message off the queue: it is delivered, or dropped if it
        is a dispose message. */
    method TakeFront() returns (got: bool, msg: Message)
      requires Valid() && msgq != []
      modifies `msgq, `delivered, `disposed
      ensures Valid() && old(msgq) == [msg] + msgq && got == (msg.id != DISPOSE_ID) && DISPOSE_ID == 0xFFFFFFFE
      ensures disposed == (if got then old(disposed) else old(disposed) + multiset{msg})
      ensures delivered == (if got then old(delivered) + multiset{msg} else old(delivered))
    {
      hide Accounted, Gone, Heap;
      AccountTaken(accepted, peek, msgq, dmsgq, Gone(delivered, disposed, cleared));
      msg := msgq[0];
      msgq := msgq[1..];
      got := msg.id != DISPOSE_ID;
      if got {
        GoneDelivered(delivered, disposed, cleared, multiset{msg});
        delivered := delivered + multiset{msg};
      } else {
        GoneDisposed(delivered, disposed, cleared, multiset{msg});
        disposed := disposed + multiset{msg};
      }
    }

    /** The next ready message; dispose messages before it are dropped. */
    method Take() returns (got: bool, msg: Message, ghost skipped: nat)
      requires Valid()
      modifies `msgq, `delivered, `disposed
      ensures Valid() && skipped <= |old(msgq)|
      ensures forall i :: 0 <= i < skipped ==> old(msgq)[i].id == DISPOSE_ID
      ensures got ==> skipped < |old(msgq)| && msg == old(msgq)[skipped] && msg.id != DISPOSE_ID && msgq == old(msgq)[skipped + 1..]
      ensures !got ==> skipped == |old(msgq)| && msgq == []
      ensures disposed == old(disposed) + multiset(old(msgq)[..skipped])
      ensures delivered == if got then old(delivered) + multiset{msg} else old(delivered)
    {
      hide *;
      got, msg, skipped := false, Message(0, 0, 0), 0;
      ghost var before, dumped := msgq, multiset{};
      while msgq != [] && !got
        invariant Valid() && skipped <= |before| && (got ==> skipped < |before| && msg == before[skipped])
        invariant msgq == before[if got then skipped + 1 else skipped..]
        invariant forall i :: 0 <= i < skipped ==> before[i].id == DISPOSE_ID
        invariant got ==> msg.id != DISPOSE_ID
        invariant dumped == multiset(before[..skipped]) && disposed == old(disposed) + dumped
        invariant delivered == if got then old(delivered) + multiset{msg} else old(delivered)
        decreases |msgq|
      {
        Sliced(before, skipped);
        got, msg := TakeFront();
        if !got {
          Sum(old(disposed), dumped, multiset{msg});
          dumped := dumped + multiset{msg};
          skipped := skipped + 1;
        }
      }
    }

    /** How long to wait: no longer than until the next trigger, no longer than
        is left of what was asked for. */
    method NextWait(cmsWait: int, elapsed: int, delayNext: int) returns (next: int)
      requires cmsWait >= FOREVER && delayNext >= FOREVER
      ensures next == FOREVER <==> cmsWait == FOREVER && delayNext == FOREVER
      ensures next >= FOREVER
      ensures next != FOREVER && delayNext != FOREVER ==> next <= delayNext
      ensures cmsWait >= 0 ==> 0 <= next && (next == 0 || next <= cmsWait - elapsed)
      ensures cmsWait == FOREVER ==> next == delayNext
      ensures cmsWait != FOREVER && next != delayNext ==> next == if elapsed < cmsWait then cmsWait - elapsed else 0
    {
      if cmsWait == FOREVER {
        next := delayNext;
      } else {
        next := if cmsWait - elapsed > 0 then cmsWait - elapsed else 0;
        if delayNext != FOREVER && delayNext < next {
          next := delayNext;
        }
      }
    }

    method PerformAll(deeds: seq<Deed>)
      requires Valid()
      modifies this
      ensures Valid() && delivered == old(delivered) && disposed == old(disposed)
      ensures (old(stop) ==> stop) && (old(peek).None? ==> peek.None?)
    {
      for i := 0 to |deeds|
        invariant Valid() && delivered == old(delivered) && disposed == old(disposed)
        invariant (old(stop) ==> stop) && (old(peek).None? ==> peek.None?)
      {
        Perform(deeds[i]);
      }
    }

    method Perform(deed: Deed)
      requires Valid()
      modifies this
      ensures Valid() && delivered == old(delivered) && disposed == old(disposed)
      ensures (old(stop) ==> stop) && (old(peek).None? ==> peek.None?)
    {
      hide Accounted, Gone, Heap;
      match deed
      case Posted(m) => Post(m);
      case PostedAt(trigger, m) => DoDelayPost(trigger, m);
      case Cleared(handler, id) => var removed := Clear(handler, id);
      case Quitted => Quit();
    }

    /** One pass of Get up to the wait. */
    method OnePass(now: uint32) returns (got: bool, msg: Message, delayNext: int, ghost pass: Pass)
      requires Valid()
      modifies `msgq, `dmsgq, `delivered, `disposed
      ensures Valid()
      ensures pass.ready == old(msgq) && pass.delayed == old(dmsgq) && pass.now == now
      ensures got ==> Picked(pass, dmsgq, msgq, msg) && msg.id != DISPOSE_ID
      ensures !got ==> msgq == [] && (dmsgq != [] ==> TimeIsLater(now, dmsgq[0].trigger)) && NothingReady(pass, dmsgq)
      ensures delivered == if got then old(delivered) + multiset{msg} else old(delivered)
      ensures delayNext == (if dmsgq == [] then FOREVER else TimeDiff(dmsgq[0].trigger, now)) && delayNext >= FOREVER
    {
      hide *;
      ghost var moved, skipped;
      delayNext, moved := ScanDelayed(now);
      got, msg, skipped := Take();
      pass := Pass(old(msgq), old(dmsgq), now, moved, skipped);
      if got { PassPicks(pass, dmsgq, msgq, msg); } else { PassFindsNothing(pass, dmsgq, skipped); }
      StoppedScan(pass.delayed, now, moved, dmsgq);
    }

    /** Get. The events are what happens at the waits, in order; if they end too
        soon, Get has not returned. A message got is the first of those that the
        last pass found ready, or due, that is not a dispose message. */
    method Get(cmsWait: int, start: uint32, events: seq<Event>)
      returns (got: bool, msg: Message, finished: bool, used: nat, ghost pass: Pass, ghost waits: seq<int>)
      requires Valid() && cmsWait >= FOREVER
      modifies this
      ensures Valid() && used <= |events|
      ensures |waits| == if finished then used else used + 1
      ensures InTime(waits, events, cmsWait, start)
      ensures (used > 0 ==> WentOn(events, used - 1, cmsWait, start)) && (got || !finished ==> WentOn(events, used, cmsWait, start))
      ensures got ==> finished && msg.id != DISPOSE_ID && peek.None?
      ensures delivered == if got then old(delivered) + multiset{msg} else old(delivered)
      ensures old(peek).Some? ==> got && msg == old(peek).value && peek.None? && used == 0
      ensures got && old(peek).None? ==> Picked(pass, dmsgq, msgq, msg)
      ensures got && old(peek).None? && used == 0 ==> pass.ready == old(msgq) && pass.delayed == old(dmsgq) && pass.now == start
      ensures !got && used == 0 ==> peek.None? && msgq == [] && NothingReady(pass, dmsgq)
      ensures !got && used == 0 ==> pass.ready == old(msgq) && pass.delayed == old(dmsgq) && pass.now == start
      ensures got && used > 0 ==> pass.now == events[used - 1].now
      ensures finished && !got ==>
        stop || (used > 0 && (!events[used - 1].ok || (cmsWait != FOREVER && TimeDiff(events[used - 1].now, start) >= cmsWait)))
      ensures !finished ==> used == |events| && !stop
      ensures old(stop) ==> finished && used == 0
      ensures old(stop) && !got ==> peek.None? && msgq == [] && (dmsgq != [] ==> TimeIsLater(start, dmsgq[0].trigger))
    {
      hide *;
      NoWaitYet(events, cmsWait, start);
      got, finished, used, waits := false, true, 0, [];
      pass := Pass(msgq, dmsgq, start, [], 0);
      if peek.Some? {
        msg, got := peek.value, true;
        Unpeeked(msg);
        return;
      }
      var elapsed, current := 0, start;
      while true
        invariant Valid() && used <= |events| && !got && finished && peek.None?
        invariant delivered == old(delivered)
        invariant used == 0 ==> current == start && stop == old(stop) && msgq == old(msgq) && dmsgq == old(dmsgq)
        invariant used > 0 ==> current == events[used - 1].now
        invariant |waits| == used && elapsed == TimeDiff(current, start)
        invariant InTime(waits, events, cmsWait, start) && WentOn(events, used, cmsWait, start)
        invariant used > 0 ==> WentOn(events, used - 1, cmsWait, start)
        invariant old(stop) ==> used == 0
        decreases |events| - used
      {
        var delayNext;
        got, msg, delayNext, pass := OnePass(current);
        if got || stop { return; }
        var next := NextWait(cmsWait, elapsed, delayNext);
        InTimeGrows(waits, next, events, cmsWait, start, current);
        waits := waits + [next];
        if used == |events| {
          finished := false;
          return;
        }
        var event := events[used];
        WentOnGrows(events, used, cmsWait, start);
        used := used + 1;
        PerformAll(event.deeds);
        if !event.ok { return; }
        current := event.now;
        elapsed := TimeDiff(current, start);
        if cmsWait != FOREVER && elapsed >= cmsWait { return; }
      }
    }

    /** The message in the peek slot is delivered. */
    method Unpeeked(msg: Message)
      requires Valid() && peek == Some(msg)
      modifies `peek, `delivered
      ensures Valid() && peek.None? && delivered == old(delivered) + multiset{msg} && msg.id != DISPOSE_ID
    {
      hide Accounted, Gone, Heap;
      AccountPeeked(accepted, msgq, dmsgq, Gone(delivered, disposed, cleared), msg);
      GoneDelivered(delivered, disposed, cleared, multiset{msg});
      peek := None;
      delivered := delivered + multiset{msg};
    }

    /** Peek: the message goes to the slot, from where Get and Clear take it, and
        is not delivered yet. */
    method Peek(cmsWait: int, start: uint32, events: seq<Event>)
      returns (got: bool, msg: Message, finished: bool, used: nat, ghost pass: Pass)
      requires Valid() && cmsWait >= FOREVER
      modifies this
      ensures Valid() && used <= |events|
      ensures got ==> peek == Some(msg)
      ensures delivered == old(delivered)
      ensures old(stop) ==> finished && used == 0
      ensures old(stop) && !got ==> peek.None? && msgq == [] && (dmsgq != [] ==> TimeIsLater(start, dmsgq[0].trigger))
      ensures got && old(peek).None? ==> Picked(pass, dmsgq, msgq, msg)
      ensures got && old(peek).None? && used == 0 ==> pass.ready == old(msgq) && pass.delayed == old(dmsgq) && pass.now == start
      ensures finished && !got ==>
        stop || (used > 0 && (!events[used - 1].ok || (cmsWait != FOREVER && TimeDiff(events[used - 1].now, start) >= cmsWait)))
      ensures old(peek).Some? ==> got && peek == old(peek)
    {
      hide Accounted, Gone, Heap;
      if peek.Some? {
        return true, peek.value, true, 0, Pass(msgq, dmsgq, start, [], 0);
      }
      ghost var waits;
      got, msg, finished, used, pass, waits := Get(cmsWait, start, events);
      if got {
        Repeek(old(delivered), msg);
      }
    }

    /** The message got last goes to the peek slot and does not count as
        delivered yet. */
    method Repeek(ghost before: multiset<Message>, msg: Message)
      requires Valid() && peek.None? && delivered == before + multiset{msg} && msg.id != DISPOSE_ID
      modifies `peek, `delivered
      ensures Valid() && peek == Some(msg) && delivered == before
    {
      hide Accounted, Gone, Heap;
      GoneDelivered(before, disposed, cleared, multiset{msg});
      AccountPeeked(accepted, msgq, dmsgq, Gone(before, disposed, cleared), msg);
      peek := Some(msg);
      delivered := before;
    }
  }

  lemma PassPicks(pass: Pass, dmsgq: seq<Delayed>, msgq: seq<Message>, msg: Message)
    requires Scanned(pass.delayed, pass.now, pass.moved, dmsgq)
    requires var all := pass.ready + Msgs(pass.moved);
             && pass.skipped < |all| && (forall i :: 0 <= i < pass.skipped ==> all[i].id == DISPOSE_ID)
             && msg == all[pass.skipped] && msg.id != DISPOSE_ID && msgq == all[pass.skipped + 1..]
    ensures Picked(pass, dmsgq, msgq, msg)
  {
  }

  lemma PassFindsNothing(pass: Pass, dmsgq: seq<Delayed>, skipped: nat)
    requires Scanned(pass.delayed, pass.now, pass.moved, dmsgq)
    requires var all := pass.ready + Msgs(pass.moved);
             skipped == |all| && forall i :: 0 <= i < skipped ==> all[i].id == DISPOSE_ID
    ensures NothingReady(pass, dmsgq)
  {
  }

  lemma StoppedScan(delayed: seq<Delayed>, now: uint32, moved: seq<Delayed>, after: seq<Delayed>)
    requires Scanned(delayed, now, moved, after)
    ensures after != [] ==> TimeIsLater(now, after[0].trigger)
  {
  }

  lemma LaterIsAhead(now: uint32, t: uint32)
    requires TimeIsLater(now, t)
    ensures TimeDiff(t, now) > 0
  {
  }

  /** A message accepted once is at any time in exactly one place: in the peek
      slot, ready, delayed, delivered, disposed of or cleared. */
  lemma ExactlyOnePlace(q: MessageQueue, m: Message)
    requires q.Valid() && q.accepted[m] == 1
    ensures Slot(q.peek)[m] + multiset(q.msgq)[m] + multiset(Msgs(q.dmsgq))[m]
            + q.delivered[m] + q.disposed[m] + q.cleared[m] == 1
  {
    assert Accounted(q.accepted, q.peek, q.msgq, q.dmsgq, Gone(q.delivered, q.disposed, q.cleared));
  }

  // -------------------------------------------------- messages with one trigger

  lemma AllMoved(before: seq<Delayed>, now: uint32, moved: seq<Delayed>, after: seq<Delayed>)
    requires Scanned(before, now, moved, after) && forall d :: d in before ==> Due(d, now)
    ensures after == []
  {
    ScanMovesDueExactlyWhen(before, now, moved, after);
    if after != [] {
      FromBefore(before, moved, after, after[0]);
    }
  }

  lemma TwoOf(s: seq<Delayed>, x: Delayed, y: Delayed)
    requires multiset(s) == multiset{x, y}
    ensures s == [x, y] || s == [y, x]
  {
    assert |multiset(s)| == |s|;
    assert s == [s[0], s[1]];
    assert s[0] in multiset(s) && s[1] in multiset(s);
  }

  lemma TwoInOrder(now: uint32, moved: seq<Delayed>, after: seq<Delayed>, x: Delayed, y: Delayed, before: seq<Delayed>)
    requires Scanned(before, now, moved, after) && multiset(before) == multiset{x, y}
    requires x.trigger == y.trigger && x.num < y.num && Due(x, now)
    ensures moved == [x, y] && after == []
  {
    TwoOf(before, x, y);
    AllMoved(before, now, moved, after);
    TwoOf(moved, x, y);
    ScanInOrder(before, now, moved, after);
  }

  lemma FirstOfBoth(pass: Pass, dmsgq: seq<Delayed>, msgq: seq<Message>, msg: Message, x: Delayed, y: Delayed)
    requires Picked(pass, dmsgq, msgq, msg) && pass.ready == [] && multiset(pass.delayed) == multiset{x, y}
    requires x.trigger == y.trigger && x.num < y.num && Due(x, pass.now) && x.msg.id != DISPOSE_ID
    ensures msg == x.msg && msgq == [y.msg] && dmsgq == []
  {
    TwoInOrder(pass.now, pass.moved, dmsgq, x, y, pass.delayed);
    BothMoved(x, y);
    var all := pass.ready + Msgs(pass.moved);
    assert all == [x.msg, y.msg] && all[0] == x.msg;
    assert pass.skipped == 0;
  }

  lemma SomethingReady(pass: Pass, dmsgq: seq<Delayed>, x: Delayed, y: Delayed)
    requires pass.ready == [] && multiset(pass.delayed) == multiset{x, y}
    requires x.trigger == y.trigger && x.num < y.num && Due(x, pass.now) && x.msg.id != DISPOSE_ID
    ensures !NothingReady(pass, dmsgq)
  {
    if Scanned(pass.delayed, pass.now, pass.moved, dmsgq) {
      TwoInOrder(pass.now, pass.moved, dmsgq, x, y, pass.delayed);
      BothMoved(x, y);
      var all := pass.ready + Msgs(pass.moved);
      assert all[0] == x.msg;
    }
  }

  lemma TheOtherOne(pass: Pass, dmsgq: seq<Delayed>, n: Message)
    requires pass.ready == [n] && pass.delayed == [] && n.id != DISPOSE_ID
    ensures !NothingReady(pass, dmsgq)
    ensures forall msgq, msg :: Picked(pass, dmsgq, msgq, msg) ==> msg == n && msgq == [] && dmsgq == []
  {
    if Scanned(pass.delayed, pass.now, pass.moved, dmsgq) {
      NothingMoved(pass.delayed, pass.now, pass.moved, dmsgq);
      var all := pass.ready + Msgs(pass.moved);
      assert all == [n] && all[0] == n;
    }
  }

  /** Two messages posted for one time are got in the order of posting, unless the
      counter wraps between them. */
  method FirstPostedFirstGot(q: MessageQueue, trigger: uint32, m: Message, n: Message, now: uint32, later: uint32)
    returns (first: Message, second: Message)
    requires q.Valid() && q.msgq == [] && q.dmsgq == [] && q.peek.None? && !q.stop
    requires q.nextNum < 0xFFFFFFFF && m.id != DISPOSE_ID && n.id != DISPOSE_ID && !TimeIsLater(now, trigger)
    modifies q
    ensures q.Valid() && first == m && second == n && q.msgq == [] && q.dmsgq == []
    ensures q.delivered == old(q.delivered) + multiset{m} + multiset{n}
  {
    var x, y := Delayed(trigger, q.nextNum, m), Delayed(trigger, q.nextNum + 1, n);
    assert Due(x, now);
    var got, finished, used;
    ghost var pass, waits;
    hide *;
    PostBoth(q, trigger, m, n);
    got, first, finished, used, pass, waits := q.Get(FOREVER, now, []);
    SomethingReady(pass, q.dmsgq, x, y);
    FirstOfBoth(pass, q.dmsgq, q.msgq, first, x, y);
    got, second, finished, used, pass, waits := q.Get(FOREVER, later, []);
    TheOtherOne(pass, q.dmsgq, n);
  }

  method PostBoth(q: MessageQueue, trigger: uint32, m: Message, n: Message)
    requires q.Valid() && q.dmsgq == [] && !q.stop && q.nextNum < 0xFFFFFFFF
    modifies q`dmsgq, q`nextNum, q`wakeUps, q`accepted
    ensures q.Valid()
    ensures multiset(q.dmsgq) == multiset{Delayed(trigger, old(q.nextNum), m), Delayed(trigger, old(q.nextNum) + 1, n)}
  {
    hide *;
    NextNumber(q.nextNum);
    q.DoDelayPost(trigger, m);
    assert q.nextNum == old(q.nextNum) + 1;
    q.DoDelayPost(trigger, n);
  }

  lemma NextNumber(k: uint32)
    requires k < 0xFFFFFFFF
    ensures (k + 1) % WRAP == k + 1
  {
  }

  lemma BothMoved(x: Delayed, y: Delayed)
    ensures Msgs([x, y]) == [x.msg, y.msg]
  {
    assert Msgs([y]) == [y.msg];
    assert [x, y][1..] == [y];
  }

  lemma NothingMoved(before: seq<Delayed>, now: uint32, moved: seq<Delayed>, after: seq<Delayed>)
    requires Scanned(before, now, moved, after) && before == []
    ensures moved == [] && after == []
  {
    assert |multiset(before)| == |moved| + |after| by {
      assert |multiset(moved)| == |moved| && |multiset(after)| == |after|;
    }
  }

  lemma Reheaped(c: seq<Delayed>)
    ensures HeapFrom(c, |c| / 2)
    ensures Heap(Reheap(c, |c| / 2)) && multiset(Reheap(c, |c| / 2)) == multiset(c)
  {
    LeavesInOrder(c);
  }

  lemma Sliced(s: seq<Message>, k: nat)
    requires k < |s|
    ensures s[k..][1..] == s[k + 1..] && s[k..][0] == s[k]
    ensures multiset(s[..k + 1]) == multiset(s[..k]) + multiset{s[k]}
  {
    assert s[..k + 1] == s[..k] + [s[k]];
  }

  lemma Sum(a: multiset<Message>, b: multiset<Message>, c: multiset<Message>)
    ensures (a + b) + c == a + (b + c)
  {
  }

  lemma GoneDelivered(delivered: multiset<Message>, disposed: multiset<Message>, cleared: multiset<Message>, m: multiset<Message>)
    ensures Gone(delivered + m, disposed, cleared) == Gone(delivered, disposed, cleared) + m
  {
  }

  lemma GoneDisposed(delivered: multiset<Message>, disposed: multiset<Message>, cleared: multiset<Message>, m: multiset<Message>)
    ensures Gone(delivered, disposed + m, cleared) == Gone(delivered, disposed, cleared) + m
  {
  }

  lemma GoneMore(delivered: multiset<Message>, disposed: multiset<Message>, cleared: multiset<Message>, m: multiset<Message>)
    ensures Gone(delivered, disposed, cleared + m) == Gone(delivered, disposed, cleared) + m
  {
  }

  lemma PushedMsgs(c: seq<Delayed>, r: seq<Delayed>, d: Delayed)
    requires multiset(r) == multiset(c) + multiset{d}
    ensures multiset(Msgs(r)) == multiset(Msgs(c)) + multiset{d.msg}
  {
    assert multiset(r) == multiset(c + [d]);
    MsgsOfBag(r, c + [d]);
    MsgsAppend(c, [d]);
    assert Msgs([d]) == [d.msg];
  }

  /** The message that is popped comes after those before and before the rest. */
  lemma PoppedAfter(moved: seq<Delayed>, c: seq<Delayed>)
    requires Heap(c) && c != [] && Sorted(moved)
    requires forall i, j :: 0 <= i < |moved| && 0 <= j < |c| ==> !Less(moved[i], c[j])
    ensures Sorted(moved + [c[0]])
    ensures forall i, j :: 0 <= i <= |moved| && 0 <= j < |Pop(c)| ==> !Less((moved + [c[0]])[i], Pop(c)[j])
  {
    hide Pop;
    forall j | 0 <= j < |Pop(c)|
      ensures exists k :: 0 <= k < |c| && c[k] == Pop(c)[j]
    {
      assert Pop(c)[j] in multiset(c);
      assert Pop(c)[j] in c;
    }
    forall k | 0 <= k < |c|
      ensures !Less(c[0], c[k])
    {
      TopIsFirst(c, k);
    }
  }
}
