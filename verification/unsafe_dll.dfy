/** The doubly-linked list of lists/src/unsafe_dll.rs: a front pointer, a
    back pointer and a length counter over boxed nodes that point at their
    neighbours in both directions. `back` of a node is the next node
    towards the back of the list, `front` the previous one.

    The nodes the list owns are kept as a sequence in chain order, front
    first; every pointer is an address that is looked up in that sequence,
    so the operations follow and rewrite links just as the Rust code does.
    `Valid` is the invariant the unsafe code keeps by hand, and `Contents`
    is what the list means. */
module UnsafeDll {
  import opened Wrappers
  import opened Heap
  import opened Sequences

  datatype Node<T> = Node(addr: Addr, front: Link, back: Link, elem: T)

  /** `next` is where the next boxed node will be allocated. */
  datatype LinkedList<T> = LinkedList(nodes: seq<Node<T>>, front: Link, back: Link, len: nat, next: Addr)

  /** The borrowing iterator: the nodes it reads, its two ends and the
      number of elements it still has to yield. */
  datatype Iter<T> = Iter(nodes: seq<Node<T>>, front: Link, back: Link, len: nat)

  function Addrs<T>(nodes: seq<Node<T>>): (r: seq<Addr>)
    ensures |r| == |nodes| && forall i :: 0 <= i < |nodes| ==> r[i] == nodes[i].addr
  {
    seq(|nodes|, i requires 0 <= i < |nodes| => nodes[i].addr)
  }

  function Elems<T>(nodes: seq<Node<T>>): (r: seq<T>)
    ensures |r| == |nodes| && forall i :: 0 <= i < |nodes| ==> r[i] == nodes[i].elem
  {
    seq(|nodes|, i requires 0 <= i < |nodes| => nodes[i].elem)
  }

  function FirstAddr<T>(nodes: seq<Node<T>>): Link
  {
    if |nodes| == 0 then None else Some(nodes[0].addr)
  }

  function LastAddr<T>(nodes: seq<Node<T>>): Link
  {
    if |nodes| == 0 then None else Some(nodes[|nodes| - 1].addr)
  }

  /** The links of a chain of nodes in both directions: of two
      neighbours, the first one's `back` is the second and the second
      one's `front` the first, and the two ends point nowhere. */
  ghost predicate Linked<T>(nodes: seq<Node<T>>)
  {
    && Distinct(Addrs(nodes))
    && (|nodes| > 0 ==> nodes[0].front == None && nodes[|nodes| - 1].back == None)
    && forall i, j :: 0 <= i < j < |nodes| && j == i + 1 ==>
         nodes[i].back == Some(nodes[j].addr) && nodes[j].front == Some(nodes[i].addr)
  }

  /** The invariant of the list: a linked chain whose ends are the list's
      `front` and `back`, whose length is `len`, and whose nodes all lie
      below the next free address. */
  ghost predicate Valid<T>(l: LinkedList<T>)
  {
    && Linked(l.nodes)
    && l.front == FirstAddr(l.nodes)
    && l.back == LastAddr(l.nodes)
    && l.len == |l.nodes|
    && (forall i :: 0 <= i < |l.nodes| ==> l.nodes[i].addr < l.next)
  }

  /** What the list holds, front to back. */
  function Contents<T>(l: LinkedList<T>): seq<T>
  {
    Elems(l.nodes)
  }

  /** Following a pointer. */
  function Deref<T>(nodes: seq<Node<T>>, a: Addr): (r: Option<Node<T>>)
    ensures r.Some? ==> r.value in nodes && r.value.addr == a
  {
    match Find(Addrs(nodes), a)
    case None => None
    case Some(i) => Some(nodes[i])
  }

  /** Writing the `front` field of the node at `a`. */
  function SetFront<T>(nodes: seq<Node<T>>, a: Addr, link: Link): (r: seq<Node<T>>)
    ensures |r| == |nodes|
    ensures forall i :: 0 <= i < |nodes| ==> r[i] == if nodes[i].addr == a then nodes[i].(front := link) else nodes[i]
  {
    seq(|nodes|, i requires 0 <= i < |nodes| => if nodes[i].addr == a then nodes[i].(front := link) else nodes[i])
  }

  /** Writing the `elem` field of the node at `a`. */
  function SetElem<T>(nodes: seq<Node<T>>, a: Addr, x: T): (r: seq<Node<T>>)
    ensures |r| == |nodes|
    ensures forall i :: 0 <= i < |nodes| ==> r[i] == if nodes[i].addr == a then nodes[i].(elem := x) else nodes[i]
  {
    seq(|nodes|, i requires 0 <= i < |nodes| => if nodes[i].addr == a then nodes[i].(elem := x) else nodes[i])
  }

  /** Freeing the node at `a` (`Box::from_raw` and the drop that follows). */
  function Free<T>(nodes: seq<Node<T>>, a: Addr): (r: seq<Node<T>>)
    ensures Find(Addrs(nodes), a).Some? ==> |r| == |nodes| - 1
  {
    match Find(Addrs(nodes), a)
    case None => nodes
    case Some(i) => nodes[..i] + nodes[i + 1..]
  }

  /** `LinkedList::new`. */
  function New<T>(): (l: LinkedList<T>)
    ensures Valid(l) && Contents(l) == [] && Len(l) == 0
  {
    LinkedList([], None, None, 0, 0)
  }

  /** `push_front`: a new node becomes the front; the old front, if any,
      gets it as its `front`, and an empty list gets it as its `back`
      too. */
  function PushFront<T>(l: LinkedList<T>, elem: T): (r: LinkedList<T>)
    requires Valid(l)
    ensures Valid(r)
    ensures Contents(r) == [elem] + Contents(l)
    ensures r.len == l.len + 1
  {
    var a := l.next;
    var node := Node(a, None, None, elem);
    match l.front
    case Some(oldFront) =>
      PushFrontLinks(l.nodes, a, elem, l.next);
      LinkedList([node.(back := Some(oldFront))] + SetFront(l.nodes, oldFront, Some(a)), Some(a), l.back, l.len + 1, a + 1)
    case None =>
      LinkedList([node], Some(a), Some(a), l.len + 1, a + 1)
  }

  /** The chain `push_front` builds on a non-empty one: the new node,
      pointing back at the old front, and the old front pointing at it. */
  function Pushed<T>(nodes: seq<Node<T>>, a: Addr, elem: T): seq<Node<T>>
    requires |nodes| > 0
  {
    [Node(a, None, Some(nodes[0].addr), elem)] + SetFront(nodes, nodes[0].addr, Some(a))
  }

  /** The links `push_front` writes onto a non-empty chain. */
  lemma PushFrontLinks<T>(nodes: seq<Node<T>>, a: Addr, elem: T, next: Addr)
    requires Linked(nodes) && |nodes| > 0 && a == next
    requires forall i :: 0 <= i < |nodes| ==> nodes[i].addr < next
    ensures var r := Pushed(nodes, a, elem);
      && Linked(r) && Elems(r) == [elem] + Elems(nodes)
      && LastAddr(r) == LastAddr(nodes)
      && forall i :: 0 <= i < |r| ==> r[i].addr < next + 1
  {
    PushedShape(nodes, a, elem);
    assert a !in Addrs(nodes);
    PushedLinked(nodes, a, elem);
    PushedElems(nodes, a, elem);
  }

  /** Node by node, the pushed chain is the old one shifted by one place. */
  lemma PushedShape<T>(nodes: seq<Node<T>>, a: Addr, elem: T)
    requires Linked(nodes) && |nodes| > 0
    ensures var r := Pushed(nodes, a, elem);
      && |r| == |nodes| + 1 && r[0] == Node(a, None, Some(nodes[0].addr), elem)
      && r[1] == nodes[0].(front := Some(a))
      && (forall i :: 2 <= i < |r| ==> r[i] == nodes[i - 1])
      && Addrs(r) == [a] + Addrs(nodes)
  {
    var r := Pushed(nodes, a, elem);
    forall i | 2 <= i < |r|
      ensures r[i] == nodes[i - 1]
    {
      assert Addrs(nodes)[0] != Addrs(nodes)[i - 1];
    }
    assert Addrs(r) == [a] + Addrs(nodes);
  }

  lemma PushedLinked<T>(nodes: seq<Node<T>>, a: Addr, elem: T)
    requires Linked(nodes) && |nodes| > 0 && a !in Addrs(nodes)
    ensures Linked(Pushed(nodes, a, elem))
  {
    var r := Pushed(nodes, a, elem);
    PushedShape(nodes, a, elem);
    assert Distinct(Addrs(r));
    forall i, j | 0 <= i < j < |r| && j == i + 1
      ensures r[i].back == Some(r[j].addr) && r[j].front == Some(r[i].addr)
    {
      if i >= 1 {
        assert nodes[i - 1].back == Some(nodes[j - 1].addr);
        assert nodes[j - 1].front == Some(nodes[i - 1].addr);
      }
    }
    assert r[|r| - 1].back == nodes[|nodes| - 1].back;
  }

  lemma PushedElems<T>(nodes: seq<Node<T>>, a: Addr, elem: T)
    requires Linked(nodes) && |nodes| > 0
    ensures Elems(Pushed(nodes, a, elem)) == [elem] + Elems(nodes)
  {
    PushedShape(nodes, a, elem);
    assert Elems(Pushed(nodes, a, elem)) == [elem] + Elems(nodes);
  }

  /** `pop_front`: the front node is freed, its `back` becomes the front
      and loses its `front` link; when there is none the list's `back` is
      cleared too. */
  function PopFront<T>(l: LinkedList<T>): (r: (LinkedList<T>, Option<T>))
    requires Valid(l)
    ensures Valid(r.0)
    ensures r.1.None? <==> Contents(l) == []
    ensures r.1.None? ==> r.0 == l
    ensures r.1.Some? ==> Contents(l) == [r.1.value] + Contents(r.0) && r.0.len == l.len - 1
  {
    match l.front
    case None => (l, None)
    case Some(a) =>
      PopFrontValid(l);
      match Deref(l.nodes, a)
      case None => (l, None)
      case Some(node) => (Unlink(l, node), Some(node.elem))
  }

  /** The list once its front node `node` is freed: `node.back` becomes
      the front and loses its `front` link, or, with no node behind, both
      ends are cleared. */
  function Unlink<T>(l: LinkedList<T>, node: Node<T>): LinkedList<T>
    requires l.len > 0
  {
    var rest := Free(l.nodes, node.addr);
    match node.back
    case Some(newFront) => LinkedList(SetFront(rest, newFront, None), node.back, l.back, l.len - 1, l.next)
    case None => LinkedList(rest, None, None, l.len - 1, l.next)
  }

  /** Popping a non-empty list frees its first node and keeps the
      invariant. */
  lemma PopFrontValid<T>(l: LinkedList<T>)
    requires Valid(l) && l.len > 0
    ensures Deref(l.nodes, l.nodes[0].addr) == Some(l.nodes[0])
    ensures var r := Unlink(l, l.nodes[0]);
      Valid(r) && Contents(l) == [l.nodes[0].elem] + Contents(r) && r.len == l.len - 1
  {
    PopFrontLinks(l.nodes);
    UnlinkNodes(l);
    UnlinkValid(l);
    SplitFirst(Elems(l.nodes), 0);
  }

  /** The nodes left once the front one is unlinked. */
  lemma UnlinkNodes<T>(l: LinkedList<T>)
    requires Valid(l) && l.len > 0
    ensures var r := Unlink(l, l.nodes[0]);
      && r.nodes == (if |l.nodes| > 1 then SetFront(l.nodes[1..], l.nodes[1].addr, None) else [])
      && r.front == (if |l.nodes| > 1 then Some(l.nodes[1].addr) else None)
      && r.back == (if |l.nodes| > 1 then l.back else None)
      && r.len == l.len - 1 && r.next == l.next
  {
    PopFrontLinks(l.nodes);
    if |l.nodes| > 1 {
      assert l.nodes[0].back == Some(l.nodes[1].addr);
    }
  }

  lemma UnlinkValid<T>(l: LinkedList<T>)
    requires Valid(l) && l.len > 0
    ensures Valid(Unlink(l, l.nodes[0]))
    ensures Elems(Unlink(l, l.nodes[0]).nodes) == Elems(l.nodes)[1..]
  {
    var r := Unlink(l, l.nodes[0]);
    UnlinkNodes(l);
    if |l.nodes| > 1 {
      UnlinkedRest(l.nodes);
    }
  }

  /** What `pop_front` finds and leaves behind on a non-empty chain. */
  lemma PopFrontLinks<T>(nodes: seq<Node<T>>)
    requires Linked(nodes) && |nodes| > 0
    ensures Deref(nodes, nodes[0].addr) == Some(nodes[0])
    ensures Free(nodes, nodes[0].addr) == nodes[1..]
    ensures |nodes| > 1 ==> var rest := SetFront(nodes[1..], nodes[1].addr, None);
      Linked(rest) && Elems(rest) == Elems(nodes)[1..] && FirstAddr(rest) == Some(nodes[1].addr)
      && LastAddr(rest) == LastAddr(nodes)
    ensures |nodes| == 1 ==> Linked(nodes[1..])
  {
    FindDistinct(Addrs(nodes), 0);
    if |nodes| > 1 {
      UnlinkedRest(nodes);
    }
  }

  /** The chain behind the front node, once its `front` link is cut. */
  lemma UnlinkedRest<T>(nodes: seq<Node<T>>)
    requires Linked(nodes) && |nodes| > 1
    ensures var rest := SetFront(nodes[1..], nodes[1].addr, None);
      Linked(rest) && Elems(rest) == Elems(nodes)[1..] && FirstAddr(rest) == Some(nodes[1].addr)
      && LastAddr(rest) == LastAddr(nodes)
      && forall i :: 0 <= i < |rest| ==> rest[i].addr == nodes[i + 1].addr
  {
    var tail := nodes[1..];
    var rest := SetFront(tail, nodes[1].addr, None);
    forall i | 0 <= i < |rest|
      ensures rest[i] == if i == 0 then tail[0].(front := None) else tail[i]
    {
      if i > 0 {
        assert Addrs(nodes)[1] != Addrs(nodes)[i + 1];
      }
    }
    assert Addrs(rest) == Addrs(nodes)[1..];
    forall i, j | 0 <= i < j < |rest| && j == i + 1
      ensures rest[i].back == Some(rest[j].addr) && rest[j].front == Some(rest[i].addr)
    {
      assert nodes[i + 1].back == Some(nodes[j + 1].addr);
      assert nodes[j + 1].front == Some(nodes[i + 1].addr);
    }
    assert rest[|rest| - 1].back == nodes[|nodes| - 1].back;
    assert Elems(rest) == Elems(nodes)[1..];
  }

  /** `len`. */
  function Len<T>(l: LinkedList<T>): (n: nat)
    ensures Valid(l) ==> n == |Contents(l)|
  {
    l.len
  }

  /** `front`: the first element, if any, read through the front
      pointer. */
  function Front<T>(l: LinkedList<T>): (r: Option<T>)
    requires Valid(l)
    ensures r == if Contents(l) == [] then None else Some(Contents(l)[0])
  {
    match l.front
    case None => None
    case Some(a) =>
      PopFrontLinks(l.nodes);
      match Deref(l.nodes, a)
      case None => None
      case Some(node) => Some(node.elem)
  }

  /** `front_mut` followed by a write of `x` through the reference it
      returns; the boolean says whether there was a front to write to. */
  function FrontMut<T>(l: LinkedList<T>, x: T): (r: (LinkedList<T>, bool))
    requires Valid(l)
    ensures Valid(r.0) && r.0.len == l.len
    ensures r.1 <==> Contents(l) != []
    ensures Contents(r.0) == if Contents(l) == [] then [] else [x] + Contents(l)[1..]
  {
    match l.front
    case None => (l, false)
    case Some(a) =>
      SetElemFront(l.nodes, x);
      (l.(nodes := SetElem(l.nodes, a, x)), true)
  }

  /** Writing the front element changes nothing else. */
  lemma SetElemFront<T>(nodes: seq<Node<T>>, x: T)
    requires Linked(nodes) && |nodes| > 0
    ensures var r := SetElem(nodes, nodes[0].addr, x);
      Linked(r) && Elems(r) == [x] + Elems(nodes)[1..]
      && FirstAddr(r) == FirstAddr(nodes) && LastAddr(r) == LastAddr(nodes)
      && forall i :: 0 <= i < |r| ==> r[i].addr == nodes[i].addr
  {
    var r := SetElem(nodes, nodes[0].addr, x);
    forall i | 0 < i < |r|
      ensures r[i] == nodes[i]
    {
      assert Addrs(nodes)[0] != Addrs(nodes)[i];
    }
    assert Addrs(r) == Addrs(nodes);
    forall i | 0 <= i < |r|
      ensures r[i].front == nodes[i].front && r[i].back == nodes[i].back
    {
    }
    assert Elems(r) == [x] + Elems(nodes)[1..];
  }

  /** The iterator's invariant: it reads a linked chain, and its front is
      the node `len` places before the end. */
  ghost predicate IterValid<T>(it: Iter<T>)
  {
    && Linked(it.nodes)
    && it.len <= |it.nodes|
    && it.front == if it.len == 0 then None else Some(it.nodes[|it.nodes| - it.len].addr)
  }

  /** The elements the iterator has still to yield. */
  function Yet<T>(it: Iter<T>): seq<T>
    requires it.len <= |it.nodes|
  {
    Elems(it.nodes)[|it.nodes| - it.len..]
  }

  /** `iter`: a copy of the list's ends and length. */
  function Iterate<T>(l: LinkedList<T>): (it: Iter<T>)
    requires Valid(l)
    ensures IterValid(it) && Yet(it) == Contents(l)
  {
    Iter(l.nodes, l.front, l.back, l.len)
  }

  /** `Iter::next`: the element under the front pointer, which then moves
      to that node's `back`. */
  function Next<T>(it: Iter<T>): (r: (Iter<T>, Option<T>))
    requires IterValid(it)
    ensures IterValid(r.0) && r.0.nodes == it.nodes
    ensures r.1.None? <==> Yet(it) == []
    ensures r.1.None? ==> r.0 == it
    ensures r.1.Some? ==> Yet(it) == [r.1.value] + Yet(r.0)
  {
    match it.front
    case None => (it, None)
    case Some(a) =>
      NextStep(it);
      match Deref(it.nodes, a)
      case None => (it, None)
      case Some(node) => (it.(front := node.back, len := it.len - 1), Some(node.elem))
  }

  /** One step of the iterator over a linked chain. */
  lemma NextStep<T>(it: Iter<T>)
    requires IterValid(it) && it.len > 0
    ensures var k := |it.nodes| - it.len;
      && Deref(it.nodes, it.nodes[k].addr) == Some(it.nodes[k])
      && IterValid(it.(front := it.nodes[k].back, len := it.len - 1))
      && Yet(it) == [it.nodes[k].elem] + Yet(it.(front := it.nodes[k].back, len := it.len - 1))
  {
    var k := |it.nodes| - it.len;
    FindDistinct(Addrs(it.nodes), k);
    if k + 1 < |it.nodes| {
      assert it.nodes[k].back == Some(it.nodes[k + 1].addr);
    }
    SplitFirst(Elems(it.nodes), k);
  }

  /** `Iter::size_hint`: exact, both bounds being the number of elements
      still to come. */
  function SizeHint<T>(it: Iter<T>): (r: (nat, Option<nat>))
    requires IterValid(it)
    ensures r == (|Yet(it)|, Some(|Yet(it)|))
  {
    (it.len, Some(it.len))
  }

  /** Running the iterator to the end yields the list front to back. */
  method Collect<T>(l: LinkedList<T>) returns (out: seq<T>)
    requires Valid(l)
    ensures out == Contents(l)
  {
    var it := Iterate(l);
    out := [];
    while it.front.Some?
      invariant IterValid(it) && out + Yet(it) == Contents(l)
      decreases it.len
    {
      var r := Next(it);
      Associative(out, [r.1.value], Yet(r.0));
      out := out + [r.1.value];
      it := r.0;
    }
  }

  /** Last in, first out: popping right after a push gives back the pushed
      element and the list as it was before. */
  lemma PopAfterPush<T>(l: LinkedList<T>, x: T)
    requires Valid(l)
    ensures PopFront(PushFront(l, x)).1 == Some(x)
    ensures Contents(PopFront(PushFront(l, x)).0) == Contents(l)
    ensures Len(PopFront(PushFront(l, x)).0) == Len(l)
  {
  }
}
