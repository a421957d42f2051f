/** The children of an element as they are kept (talk/xmllite/xmlelement.cc): a
    singly linked list with a pointer to its last node. */
module XmlChildList {
  import opened XmlTree
  import opened XmlElements

  class ChildNode {
    var next: ChildNode?
    var item: XmlChild

    constructor (child: XmlChild)
      ensures item == child && next == null
    {
      item, next := child, null;
    }
  }

  predicate Named(c: XmlChild, name: QName) { c.ElementNode? && c.element.name == name }

  function Without(s: seq<XmlChild>, name: QName): seq<XmlChild> {
    if s == [] then []
    else Without(s[..|s| - 1], name) + if Named(s[|s| - 1], name) then [] else [s[|s| - 1]]
  }

  /** No text is empty, and no two stand next to each other: what the printer
      and the parser agree on. */
  predicate Coalesced(s: seq<XmlChild>) {
    && (forall i :: 0 <= i < |s| ==> s[i] != TextNode(""))
    && (forall i :: 0 < i < |s| ==> s[i - 1].ElementNode? || s[i].ElementNode?)
  }

  lemma TextKeepsCoalesced(s: seq<XmlChild>, text: string)
    requires Coalesced(s)
    ensures Coalesced(AddTextNode(s, text))
  {
  }

  /** An element that ClearNamedChildren leaves. */
  predicate Stays(c: XmlChild, name: QName) { c.ElementNode? && !Named(c, name) }

  /** An element that stays stands between the places i and j. */
  predicate Between(s: seq<XmlChild>, name: QName, i: nat, j: nat)
    requires j <= |s|
  {
    exists k :: i < k < j && Stays(s[k], name)
  }

  /** ... between any two texts. */
  predicate Separated(s: seq<XmlChild>, name: QName) {
    forall i: nat, j: nat :: i < j < |s| && s[i].TextNode? && s[j].TextNode? ==> Between(s, name, i, j)
  }

  /** ... but not behind the last text. */
  predicate EndsOpen(s: seq<XmlChild>, name: QName) {
    exists i: nat :: i < |s| && s[i].TextNode? && !Between(s, name, i, |s|)
  }

  lemma BetweenMore(front: seq<XmlChild>, x: XmlChild, name: QName, i: nat, j: nat)
    requires j <= |front|
    ensures Between(front + [x], name, i, j) <==> Between(front, name, i, j)
    ensures i < |front| ==> (Between(front + [x], name, i, |front| + 1) <==> Between(front, name, i, |front|) || Stays(x, name))
  {
    var s := front + [x];
    assert forall k :: 0 <= k < |front| ==> s[k] == front[k];
    assert s[|front|] == x;
  }

  lemma {:induction false} EndsOpenMeans(s: seq<XmlChild>, name: QName)
    ensures EndsOpen(s, name) <==> Without(s, name) != [] && Without(s, name)[|Without(s, name)| - 1].TextNode?
  {
    if s != [] {
      var front, x := s[..|s| - 1], s[|s| - 1];
      EndsOpenMeans(front, name);
      assert s == front + [x];
      EndsOpenMore(front, x, name);
    }
  }

  lemma EndsOpenMore(front: seq<XmlChild>, x: XmlChild, name: QName)
    ensures EndsOpen(front + [x], name) <==> x.TextNode? || (Named(x, name) && EndsOpen(front, name))
  {
    var s := front + [x];
    forall i: nat | i < |front|
      ensures Between(s, name, i, |s|) <==> Between(front, name, i, |front|) || Stays(x, name)
      ensures s[i] == front[i]
    {
      BetweenMore(front, x, name, i, 0);
    }
    if x.TextNode? {
      assert !Between(s, name, |front|, |s|);
    }
  }

  lemma SeparatedMore(front: seq<XmlChild>, x: XmlChild, name: QName)
    ensures Separated(front + [x], name) <==> Separated(front, name) && (x.TextNode? ==> !EndsOpen(front, name))
  {
    var s := front + [x];
    forall i: nat, j: nat | i < j <= |front|
      ensures Between(s, name, i, j) <==> Between(front, name, i, j)
      ensures s[i] == front[i] && (j < |front| ==> s[j] == front[j])
    {
      BetweenMore(front, x, name, i, j);
    }
    assert s[|front|] == x;
  }

  lemma CoalescedMore(front: seq<XmlChild>, x: XmlChild)
    ensures Coalesced(front + [x]) <==>
      Coalesced(front) && x != TextNode("") && (front == [] || front[|front| - 1].ElementNode? || x.ElementNode?)
  {
    var s := front + [x];
    assert forall i :: 0 <= i < |front| ==> s[i] == front[i];
    assert s[|front|] == x;
  }

  /** The exact law of ClearNamedChildren: what was coalesced stays so exactly when
      an element that stays stands between any two texts. */
  lemma {:induction false} ClearKeepsCoalescedExactlyWhen(s: seq<XmlChild>, name: QName)
    requires Coalesced(s)
    ensures Coalesced(Without(s, name)) <==> Separated(s, name)
  {
    if s != [] {
      var front, x := s[..|s| - 1], s[|s| - 1];
      assert s == front + [x];
      CoalescedMore(front, x);
      ClearKeepsCoalescedExactlyWhen(front, name);
      SeparatedMore(front, x, name);
      EndsOpenMeans(front, name);
      CoalescedMore(Without(front, name), x);
      hide Coalesced, Separated, EndsOpen;
      if Named(x, name) {
        assert Without(s, name) == Without(front, name);
      } else {
        assert Without(s, name) == Without(front, name) + [x];
      }
    }
  }

  /** To take children out of the middle can leave two texts side by side. */
  lemma ClearLeavesTextsAdjacent(e: XmlElement)
    ensures var s := [TextNode("a"), ElementNode(e), TextNode("b")];
            Coalesced(s) && !Coalesced(Without(s, e.name))
  {
    var s := [TextNode("a"), ElementNode(e), TextNode("b")];
    assert s[0].TextNode? && s[2].TextNode? && !Between(s, e.name, 0, 2);
    ClearKeepsCoalescedExactlyWhen(s, e.name);
  }

  lemma {:induction false} WithoutInOrder(s: seq<XmlChild>, t: seq<XmlChild>, name: QName)
    ensures Without(s + t, name) == Without(s, name) + Without(t, name)
  {
    if t == [] {
      assert s + t == s;
    } else {
      var n := |t| - 1;
      WithoutInOrder(s, t[..n], name);
      assert (s + t)[..|s + t| - 1] == s + t[..n] && (s + t)[|s + t| - 1] == t[n];
    }
  }

  lemma {:induction false} WithoutExactly(s: seq<XmlChild>, name: QName, c: XmlChild)
    ensures c in Without(s, name) <==> c in s && (c.TextNode? || c.element.name != name)
  {
    if s != [] {
      WithoutExactly(s[..|s| - 1], name, c);
      assert s == s[..|s| - 1] + [s[|s| - 1]];
    }
  }

  /** The node at place i, or none past the end. */
  function At(spine: seq<ChildNode>, i: nat): ChildNode? {
    if i < |spine| then spine[i] else null
  }

  /** The nodes of a list, linked one to the next. */
  ghost predicate Linked(spine: seq<ChildNode>)
    reads spine
  {
    && (forall i, j :: 0 <= i < j < |spine| ==> spine[i] != spine[j])
    && (forall i: nat :: i < |spine| ==> spine[i].next == At(spine, i + 1))
  }

  function LastOf(spine: seq<ChildNode>): ChildNode? {
    if spine == [] then null else spine[|spine| - 1]
  }

  lemma EndsWithout(spine: seq<ChildNode>, k: nat)
    requires k < |spine|
    ensures var rest := spine[..k] + spine[k + 1..];
      && At(rest, 0) == (if k == 0 then At(spine, 1) else At(spine, 0))
      && LastOf(rest) == if k < |spine| - 1 then LastOf(spine) else if k == 0 then null else spine[k - 1]
  {
  }

  lemma OnlyLast(spine: seq<ChildNode>, k: nat)
    requires Linked(spine) && k < |spine|
    ensures LastOf(spine) == spine[k] <==> k == |spine| - 1
  {
  }

  lemma AtPlace(spine: seq<ChildNode>, k: nat)
    requires k <= |spine|
    ensures At(spine, k) == null <==> k == |spine|
    ensures k < |spine| ==> At(spine, k) == spine[k]
  {
  }

  lemma NextAt(spine: seq<ChildNode>, k: nat)
    requires Linked(spine) && k < |spine|
    ensures spine[k].next == At(spine, k + 1)
  {
  }

  /** The links go past the node at k; the children are as they were. */
  ghost predicate Bypassed(spine: seq<ChildNode>, items: seq<XmlChild>, k: nat)
    reads spine
  {
    && |items| == |spine|
    && (forall i, j :: 0 <= i < j < |spine| ==> spine[i] != spine[j])
    && (forall i: nat :: i < |spine| && i != k ==> spine[i].next == At(spine, if i + 1 == k then k + 1 else i + 1))
    && forall i :: 0 <= i < |spine| ==> spine[i].item == items[i]
  }

  /** Then the node is left out. */
  lemma Unlinked(spine: seq<ChildNode>, items: seq<XmlChild>, k: nat)
    requires k < |spine| && Bypassed(spine, items, k)
    ensures Items(spine[..k] + spine[k + 1..]) == items[..k] + items[k + 1..]
    ensures Linked(spine[..k] + spine[k + 1..])
  {
    var rest := spine[..k] + spine[k + 1..];
    forall i: nat | i < |rest|
      ensures rest[i].next == At(rest, i + 1)
    {
      assert rest[i] == spine[if i < k then i else i + 1];
    }
  }

  ghost function Items(spine: seq<ChildNode>): (s: seq<XmlChild>)
    reads spine
    ensures |s| == |spine|
  {
    seq(|spine|, i requires 0 <= i < |spine| reads spine => spine[i].item)
  }

  lemma JoinedText(before: seq<XmlChild>, after: seq<XmlChild>, text: string)
    requires |before| == |after| > 0 && text != "" && before[|before| - 1].TextNode?
    requires forall i :: 0 <= i < |before| - 1 ==> after[i] == before[i]
    requires after[|after| - 1] == TextNode(before[|before| - 1].text + text)
    ensures after == AddTextNode(before, text)
  {
  }

  lemma EachItem(spine: seq<ChildNode>)
    ensures forall i :: 0 <= i < |spine| ==> spine[i].item == Items(spine)[i]
  {
  }

  class ChildList {
    var first: ChildNode?
    var last: ChildNode?
    ghost var spine: seq<ChildNode>

    ghost predicate Valid()
      reads this, spine
    {
      && Linked(spine)
      && first == At(spine, 0)
      && last == LastOf(spine)
    }

    ghost function Children(): seq<XmlChild>
      reads this, spine
    {
      Items(spine)
    }

    constructor ()
      ensures Valid() && Children() == [] && spine == []
    {
      first, last, spine := null, null, [];
    }

    /** AddElement: the node goes to the end. */
    method AddElement(child: ChildNode)
      requires Valid() && child !in spine
      modifies this, spine`next, child`next
      ensures Valid() && spine == old(spine) + [child]
      ensures Children() == old(Children()) + [child.item]
    {
      child.next := null;
      if last != null {
        assert last == spine[|spine| - 1] && last in spine;
        last.next := child;
      } else {
        first := child;
      }
      last := child;
      spine := spine + [child];
    }

    /** AddParsedText: text goes on the text before it. */
    method AddParsedText(text: string)
      requires Valid()
      modifies this, spine
      ensures Valid() && Children() == AddTextNode(old(Children()), text)
      ensures fresh(set n | n in spine && n !in old(spine))
    {
      if text == "" { return; }
      if last != null && last.item.TextNode? {
        JoinText(text);
        return;
      }
      var child := new ChildNode(TextNode(text));
      AddElement(child);
    }

    method JoinText(text: string)
      requires Valid() && text != "" && last != null && last.item.TextNode?
      modifies last`item
      ensures Valid() && Children() == AddTextNode(old(Children()), text)
    {
      hide Items, AddTextNode;
      ghost var before := Children();
      EachItem(spine);
      OnlyLast(spine, |spine| - 1);
      last.item := TextNode(last.item.text + text);
      EachItem(spine);
      JoinedText(before, Children(), text);
    }

    /** RemoveChildAfter: the node after the one at k - 1, or the first one. */
    method RemoveChildAfter(predecessor: ChildNode?, ghost k: nat)
      requires Valid() && k < |spine| && predecessor == (if k == 0 then null else spine[k - 1])
      modifies this, spine`next
      ensures Valid() && spine == old(spine[..k] + spine[k + 1..])
      ensures Children() == old(Children()[..k] + Children()[k + 1..])
    {
      hide LastOf, Items;
      ghost var was, items := spine, Children();
      if k > 0 { NextAt(spine, k - 1); }
      NextAt(spine, k);
      OnlyLast(spine, k);
      EndsWithout(spine, k);
      EachItem(spine);
      spine := spine[..k] + spine[k + 1..];
      var next := if predecessor == null then first else predecessor.next;
      if predecessor == null {
        first := next.next;
      } else {
        predecessor.next := next.next;
      }
      if last == next {
        last := predecessor;
      }
      Unlinked(was, items, k);
    }

    /** The walk of ClearNamedChildren after done of the items: those kept are the
        first k nodes, and child is the next one. */
    ghost predicate Sweeping(name: QName, previous: ChildNode?, child: ChildNode?, k: nat, done: nat, items: seq<XmlChild>,
                             before: seq<ChildNode>)
      reads this, spine
    {
      && Valid() && k <= |spine| && done <= |items| && AllIn(spine, before)
      && previous == (if k == 0 then null else spine[k - 1]) && child == At(spine, k)
      && |Without(items[..done], name)| == k && Children() == Without(items[..done], name) + items[done..]
    }

    lemma SweepStarts(name: QName)
      requires Valid()
      ensures Sweeping(name, null, first, 0, 0, Children(), spine)
    {
      WithoutNext(Children(), name, 0);
    }

    lemma SweepGoesOn(name: QName, previous: ChildNode?, child: ChildNode, k: nat, done: nat, items: seq<XmlChild>,
                      before: seq<ChildNode>)
      requires Sweeping(name, previous, child, k, done, items, before)
      ensures Valid() && k < |spine| && done < |items| && previous == (if k == 0 then null else spine[k - 1])
      ensures child == spine[k] && child.item == items[done] && forall n :: n in spine ==> n in before
      ensures !Named(child.item, name) ==> Sweeping(name, child, child.next, k + 1, done + 1, items, before)
    {
      AtPlace(spine, k);
      NextAt(spine, k);
      SameTail(spine, Without(items[..done], name), items, done);
      WithoutNext(items, name, done);
      hide Without, Items, Linked;
    }

    /** The same after the node at k was taken out of what was there. */
    lemma SweepDrops(name: QName, previous: ChildNode?, next: ChildNode?, k: nat, done: nat, items: seq<XmlChild>,
                     before: seq<ChildNode>, was: seq<ChildNode>, had: seq<XmlChild>)
      requires Valid() && k < |was| == |had| && spine == was[..k] + was[k + 1..] && Children() == had[..k] + had[k + 1..]
      requires done < |items| && AllIn(was, before) && Named(items[done], name) && next == At(was, k + 1)
      requires previous == (if k == 0 then null else was[k - 1])
      requires |Without(items[..done], name)| == k && had == Without(items[..done], name) + items[done..]
      ensures Sweeping(name, previous, next, k, done + 1, items, before)
    {
      FewerIn(was, k, before);
      WithoutNext(items, name, done);
      assert items[done..] == [items[done]] + items[done + 1..];
      hide Without, Items, Linked, AllIn;
    }

    lemma SweepEnds(name: QName, previous: ChildNode?, k: nat, done: nat, items: seq<XmlChild>, before: seq<ChildNode>)
      requires Sweeping(name, previous, null, k, done, items, before)
      ensures Valid() && Children() == Without(items, name) && forall n :: n in spine ==> n in before
    {
      AtPlace(spine, k);
      assert |items| - done == |Children()| - k == 0;
      assert items[..done] == items;
    }

    /** ClearNamedChildren: takes out the elements of that name, and only those,
        and leaves a sound list. */
    method ClearNamedChildren(name: QName)
      requires Valid()
      modifies this, spine`next
      ensures Valid() && Children() == Without(old(Children()), name)
      ensures forall n :: n in spine ==> n in old(spine)
    {
      hide *;
      ghost var before, items := spine, Children();
      ghost var k, done := 0, 0;
      var previous: ChildNode? := null;
      var child := first;
      SweepStarts(name);
      while child != null
        invariant done <= |items| && Sweeping(name, previous, child, k, done, items, before)
        decreases |items| - done
      {
        SweepGoesOn(name, previous, child, k, done, items, before);
        var next := child.next;
        if Named(child.item, name) {
          assert forall i :: 0 <= i < |spine| ==> spine[i] in old(spine);
          DropNext(name, previous, next, k, done, items, before);
        } else {
          previous := child;
          k := k + 1;
        }
        done := done + 1;
        child := next;
      }
      SweepEnds(name, previous, k, done, items, before);
    }

    method DropNext(name: QName, previous: ChildNode?, ghost next: ChildNode?, ghost k: nat, ghost done: nat,
                    ghost items: seq<XmlChild>, ghost before: seq<ChildNode>)
      requires k < |spine| && Sweeping(name, previous, spine[k], k, done, items, before)
      requires Named(spine[k].item, name) && next == spine[k].next
      modifies this, spine`next
      ensures Sweeping(name, previous, next, k, done + 1, items, before)
    {
      ghost var was, had := spine, Children();
      SweepGoesOn(name, previous, spine[k], k, done, items, before);
      NextAt(spine, k);
      RemoveChildAfter(previous, k);
      SweepDrops(name, previous, next, k, done, items, before, was, had);
    }

    /** The list part of the copy constructor: new nodes, the same children. */
    method Copy() returns (copy: ChildList)
      requires Valid()
      ensures fresh(copy) && copy.Valid() && fresh(copy.spine) && copy.Children() == Children()
    {
      copy := new ChildList();
      hide Linked;
      var child := first;
      ghost var k := 0;
      while child != null
        invariant fresh(copy) && copy.Valid() && fresh(copy.spine) && k <= |spine|
        invariant child == At(spine, k) && copy.Children() == Children()[..k]
        decreases |spine| - k
      {
        NextAt(spine, k);
        ghost var before := copy.Children();
        var node := new ChildNode(child.item);
        copy.AddElement(node);
        assert Children()[..k + 1] == before + [child.item];
        k := k + 1;
        child := child.next;
      }
    }
  }

  predicate AllIn(s: seq<ChildNode>, t: seq<ChildNode>) {
    forall i :: 0 <= i < |s| ==> s[i] in t
  }

  lemma FewerIn(s: seq<ChildNode>, k: nat, t: seq<ChildNode>)
    requires k < |s| && AllIn(s, t)
    ensures AllIn(s[..k] + s[k + 1..], t) && At(s[..k] + s[k + 1..], k) == At(s, k + 1)
  {
  }

  lemma SameTail(spine: seq<ChildNode>, kept: seq<XmlChild>, items: seq<XmlChild>, done: nat)
    requires |kept| < |spine| && done <= |items| && Items(spine) == kept + items[done..]
    ensures done < |items| && spine[|kept|].item == items[done]
    ensures Items(spine) == kept + [items[done]] + items[done + 1..]
    ensures Items(spine)[..|kept|] + Items(spine)[|kept| + 1..] == kept + items[done + 1..]
  {
    assert Items(spine)[|kept|] == items[done..][0];
    assert items[done..] == [items[done]] + items[done + 1..];
  }

  lemma WithoutNext(s: seq<XmlChild>, name: QName, n: nat)
    requires n <= |s|
    ensures Without([], name) == [] && s[..0] == []
    ensures n < |s| ==> Without(s[..n + 1], name) == Without(s[..n], name) + if Named(s[n], name) then [] else [s[n]]
  {
    if n < |s| {
      assert s[..n + 1][..n] == s[..n];
    }
  }

  /** How an element grows while it is parsed. */
  datatype Growth = GrowText(text: string) | GrowElement(element: XmlElement)

  /** The element of the builder, which keeps its children as a sequence, and the
      linked list stay alike when both grow by the same. */
  method GrowAlike(e: XmlElement, list: ChildList, step: Growth)
    requires list.Valid() && e.children == list.Children()
    modifies e`children, list, list.spine
    ensures list.Valid() && e.children == list.Children()
    ensures e.children == Grown(old(e.children), step)
  {
    match step {
      case GrowText(text) =>
        e.AddParsedText(text);
        list.AddParsedText(text);
      case GrowElement(child) =>
        e.AddElement(child);
        AppendElement(list, child);
    }
  }

  function Grown(s: seq<XmlChild>, step: Growth): seq<XmlChild> {
    match step
    case GrowText(text) => AddTextNode(s, text)
    case GrowElement(child) => s + [ElementNode(child)]
  }

  method AppendElement(list: ChildList, child: XmlElement)
    requires list.Valid()
    modifies list, list.spine
    ensures list.Valid() && list.Children() == old(list.Children()) + [ElementNode(child)]
  {
    var node := new ChildNode(ElementNode(child));
    list.AddElement(node);
  }
}
