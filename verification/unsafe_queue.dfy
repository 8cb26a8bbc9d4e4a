/** The singly-linked queue of lists/src/unsafe_queue.rs: a `head` pointer
    for popping and a raw `tail` pointer for pushing, over boxed nodes that
    each point at the next one. A null pointer is `None`.

    As for the doubly-linked list, the nodes the queue owns are kept as a
    sequence in chain order, head first, and every pointer is an address
    looked up in that sequence. `Valid` is the invariant the unsafe code
    keeps by hand (in particular: `head` is null exactly when `tail` is),
    and `Contents` is what the queue means. */
module UnsafeQueue {
  import opened Wrappers
  import opened Heap
  import opened Sequences

  datatype Node<T> = Node(addr: Addr, elem: T, next: Link)

  /** `nextFree` is where the next boxed node will be allocated. */
  datatype List<T> = List(nodes: seq<Node<T>>, head: Link, tail: Link, nextFree: Addr)

  /** The borrowing iterator: the nodes it reads and the node it yields
      next. */
  datatype Iter<T> = Iter(nodes: seq<Node<T>>, next: Link)

  function Addrs<T>(nodes: seq<Node<T>>): (r: seq<Addr>)
    ensures |r| == |nodes| && forall i :: 0 <= i < |nodes| ==> r[i] == nodes[i].addr
  {
    seq(|nodes|, i requires 0 <= i < |nodes| => nodes[i].addr)
  }

  function Elems<T>(nodes: seq<Node<T>>): (r: seq<T>)
    ensures |r| == |nodes| && forall i :: 0 <= i < |nodes| ==> r[i] == nodes[i].elem
  {
    seq(|nodes|, i requires 0 <= i < |nodes| => nodes[i].elem)
  }

  function FirstAddr<T>(nodes: seq<Node<T>>): Link
  {
    if |nodes| == 0 then None else Some(nodes[0].addr)
  }

  function LastAddr<T>(nodes: seq<Node<T>>): Link
  {
    if |nodes| == 0 then None else Some(nodes[|nodes| - 1].addr)
  }

  /** The links of a chain: each node's `next` is the node after it, and
      the last one's is null. */
  ghost predicate Chained<T>(nodes: seq<Node<T>>)
  {
    && Distinct(Addrs(nodes))
    && (|nodes| > 0 ==> nodes[|nodes| - 1].next == None)
    && forall i, j :: 0 <= i < j < |nodes| && j == i + 1 ==> nodes[i].next == Some(nodes[j].addr)
  }

  /** The invariant of the queue: a chain from `head` to `tail` whose
      nodes all lie below the next free address. */
  ghost predicate Valid<T>(q: List<T>)
  {
    && Chained(q.nodes)
    && q.head == FirstAddr(q.nodes)
    && q.tail == LastAddr(q.nodes)
    && (forall i :: 0 <= i < |q.nodes| ==> q.nodes[i].addr < q.nextFree)
  }

  /** What the queue holds, from the head (oldest) to the tail (newest). */
  function Contents<T>(q: List<T>): seq<T>
  {
    Elems(q.nodes)
  }

  /** Following a pointer. */
  function Deref<T>(nodes: seq<Node<T>>, a: Addr): (r: Option<Node<T>>)
    ensures r.Some? ==> r.value in nodes && r.value.addr == a
  {
    match Find(Addrs(nodes), a)
    case None => None
    case Some(i) => Some(nodes[i])
  }

  /** Writing the `next` field of the node at `a`. */
  function SetNext<T>(nodes: seq<Node<T>>, a: Addr, link: Link): (r: seq<Node<T>>)
    ensures |r| == |nodes|
    ensures forall i :: 0 <= i < |nodes| ==> r[i] == if nodes[i].addr == a then nodes[i].(next := link) else nodes[i]
  {
    seq(|nodes|, i requires 0 <= i < |nodes| => if nodes[i].addr == a then nodes[i].(next := link) else nodes[i])
  }

  /** Freeing the node at `a` (`Box::from_raw` and the drop that follows). */
  function Free<T>(nodes: seq<Node<T>>, a: Addr): (r: seq<Node<T>>)
    ensures Find(Addrs(nodes), a).Some? ==> |r| == |nodes| - 1
  {
    match Find(Addrs(nodes), a)
    case None => nodes
    case Some(i) => nodes[..i] + nodes[i + 1..]
  }

  /** `List::new`: both pointers null. */
  function New<T>(): (q: List<T>)
    ensures Valid(q) && Contents(q) == [] && q.head == None && q.tail == None
  {
    List([], None, None, 0)
  }

  /** `push`: a new node with a null `next` becomes the tail; the old tail,
      if there is one, gets it as its `next`, and otherwise it becomes the
      head as well. */
  function Push<T>(q: List<T>, elem: T): (r: List<T>)
    requires Valid(q)
    ensures Valid(r)
    ensures Contents(r) == Contents(q) + [elem]
    ensures q.head.Some? ==> r.head == q.head
  {
    var a := q.nextFree;
    var node := Node(a, elem, None);
    if q.tail.Some? then
      PushLinks(q.nodes, a, elem, q.nextFree);
      List(SetNext(q.nodes, q.tail.value, Some(a)) + [node], q.head, Some(a), a + 1)
    else
      List(q.nodes + [node], Some(a), Some(a), a + 1)
  }

  /** The chain `push` builds on a non-empty one: the old tail pointing at
      the new node, which ends the chain. */
  function Appended<T>(nodes: seq<Node<T>>, a: Addr, elem: T): seq<Node<T>>
    requires |nodes| > 0
  {
    SetNext(nodes, nodes[|nodes| - 1].addr, Some(a)) + [Node(a, elem, None)]
  }

  /** The links `push` writes onto a non-empty chain. */
  lemma PushLinks<T>(nodes: seq<Node<T>>, a: Addr, elem: T, nextFree: Addr)
    requires Chained(nodes) && |nodes| > 0 && a == nextFree
    requires forall i :: 0 <= i < |nodes| ==> nodes[i].addr < nextFree
    ensures var r := Appended(nodes, a, elem);
      && Chained(r) && Elems(r) == Elems(nodes) + [elem]
      && FirstAddr(r) == FirstAddr(nodes) && LastAddr(r) == Some(a)
      && forall i :: 0 <= i < |r| ==> r[i].addr < nextFree + 1
  {
    AppendedShape(nodes, a, elem);
    assert a !in Addrs(nodes);
    AppendedChained(nodes, a, elem);
    AppendedElems(nodes, a, elem);
  }

  /** Node by node, the appended chain is the old one with the last node's
      `next` set, then the new node. */
  lemma AppendedShape<T>(nodes: seq<Node<T>>, a: Addr, elem: T)
    requires Chained(nodes) && |nodes| > 0
    ensures var r := Appended(nodes, a, elem); var n := |nodes|;
      && |r| == n + 1 && r[n] == Node(a, elem, None)
      && r[n - 1] == nodes[n - 1].(next := Some(a))
      && (forall i :: 0 <= i < n - 1 ==> r[i] == nodes[i])
      && Addrs(r) == Addrs(nodes) + [a]
  {
    var r := Appended(nodes, a, elem);
    var n := |nodes|;
    forall i | 0 <= i < n - 1
      ensures r[i] == nodes[i]
    {
      assert Addrs(nodes)[i] != Addrs(nodes)[n - 1];
    }
    assert Addrs(r) == Addrs(nodes) + [a];
  }

  lemma AppendedChained<T>(nodes: seq<Node<T>>, a: Addr, elem: T)
    requires Chained(nodes) && |nodes| > 0 && a !in Addrs(nodes)
    ensures Chained(Appended(nodes, a, elem))
  {
    var r := Appended(nodes, a, elem);
    AppendedShape(nodes, a, elem);
    assert Distinct(Addrs(r));
    forall i, j | 0 <= i < j < |r| && j == i + 1
      ensures r[i].next == Some(r[j].addr)
    {
      if j < |nodes| {
        assert nodes[i].next == Some(nodes[j].addr);
      }
    }
  }

  lemma AppendedElems<T>(nodes: seq<Node<T>>, a: Addr, elem: T)
    requires Chained(nodes) && |nodes| > 0
    ensures Elems(Appended(nodes, a, elem)) == Elems(nodes) + [elem]
  {
    AppendedShape(nodes, a, elem);
    assert Elems(Appended(nodes, a, elem)) == Elems(nodes) + [elem];
  }

  /** `pop`: the head node is freed and its `next` becomes the head; when
      that is null the tail is nulled too, so the queue is empty again
      rather than left with a dangling tail. */
  function Pop<T>(q: List<T>): (r: (List<T>, Option<T>))
    requires Valid(q)
    ensures Valid(r.0)
    ensures r.0.head.None? <==> r.0.tail.None?
    ensures r.1.None? <==> Contents(q) == []
    ensures r.1.None? ==> r.0 == q
    ensures r.1.Some? ==> Contents(q) == [r.1.value] + Contents(r.0)
  {
    match q.head
    case None => (q, None)
    case Some(h) =>
      PopValid(q);
      match Deref(q.nodes, h)
      case None => (q, None)
      case Some(head) => (Unhead(q, head), Some(head.elem))
  }

  /** The queue once its head node `head` is freed. */
  function Unhead<T>(q: List<T>, head: Node<T>): List<T>
  {
    var rest := Free(q.nodes, head.addr);
    var newHead := head.next;
    List(rest, newHead, if newHead.None? then None else q.tail, q.nextFree)
  }

  /** Popping a non-empty queue frees its first node and keeps the
      invariant. */
  lemma PopValid<T>(q: List<T>)
    requires Valid(q) && |q.nodes| > 0
    ensures Deref(q.nodes, q.nodes[0].addr) == Some(q.nodes[0])
    ensures var r := Unhead(q, q.nodes[0]);
      Valid(r) && Contents(q) == [q.nodes[0].elem] + Contents(r)
  {
    UnheadShape(q);
    UnheadValid(q);
    SplitFirst(Elems(q.nodes), 0);
  }

  /** What `pop` finds and leaves behind: the head node, and the chain
      after it. */
  lemma UnheadShape<T>(q: List<T>)
    requires Valid(q) && |q.nodes| > 0
    ensures Deref(q.nodes, q.nodes[0].addr) == Some(q.nodes[0])
    ensures var r := Unhead(q, q.nodes[0]);
      && r.nodes == q.nodes[1..]
      && r.head == (if |q.nodes| > 1 then Some(q.nodes[1].addr) else None)
      && r.tail == (if |q.nodes| > 1 then q.tail else None)
      && r.nextFree == q.nextFree
  {
    FindDistinct(Addrs(q.nodes), 0);
    if |q.nodes| > 1 {
      assert q.nodes[0].next == Some(q.nodes[1].addr);
    }
  }

  lemma UnheadValid<T>(q: List<T>)
    requires Valid(q) && |q.nodes| > 0
    ensures Valid(Unhead(q, q.nodes[0]))
  {
    UnheadShape(q);
    RestChained(q.nodes);
  }

  /** The chain after its first node is a chain. */
  lemma RestChained<T>(nodes: seq<Node<T>>)
    requires Chained(nodes) && |nodes| > 0
    ensures Chained(nodes[1..])
  {
    var rest := nodes[1..];
    assert Addrs(rest) == Addrs(nodes)[1..];
    forall i, j | 0 <= i < j < |rest| && j == i + 1
      ensures rest[i].next == Some(rest[j].addr)
    {
      assert nodes[i + 1].next == Some(nodes[j + 1].addr);
    }
  }

  /** `peek`: the head's element, if any. */
  function Peek<T>(q: List<T>): (r: Option<T>)
    requires Valid(q)
    ensures r == if Contents(q) == [] then None else Some(Contents(q)[0])
  {
    match q.head
    case None => None
    case Some(h) =>
      UnheadShape(q);
      match Deref(q.nodes, h)
      case None => None
      case Some(node) => Some(node.elem)
  }

  /** The iterator's invariant: it reads a chain, and its next node, if
      any, is one of the chain's. */
  ghost predicate IterValid<T>(it: Iter<T>)
  {
    Chained(it.nodes) && (it.next.Some? ==> it.next.value in Addrs(it.nodes))
  }

  /** The position of the iterator's next node; the end of the chain when
      it has none. */
  function Pos<T>(it: Iter<T>): (k: nat)
    ensures k <= |it.nodes|
    ensures IterValid(it) && it.next.Some? ==> k < |it.nodes| && it.nodes[k].addr == it.next.value
  {
    match it.next
    case None => |it.nodes|
    case Some(a) =>
      match Find(Addrs(it.nodes), a)
      case None => |it.nodes|
      case Some(k) => k
  }

  /** The elements the iterator has still to yield. */
  function Yet<T>(it: Iter<T>): seq<T>
  {
    Elems(it.nodes)[Pos(it)..]
  }

  /** `iter`: an iterator starting at the head. */
  function Iterate<T>(q: List<T>): (it: Iter<T>)
    requires Valid(q)
    ensures IterValid(it) && Yet(it) == Contents(q)
  {
    if q.head.Some? then
      FindDistinct(Addrs(q.nodes), 0);
      Iter(q.nodes, q.head)
    else
      Iter(q.nodes, q.head)
  }

  /** `Iter::next`: the element of the next node, whose `next` becomes the
      iterator's. */
  function Next<T>(it: Iter<T>): (r: (Iter<T>, Option<T>))
    requires IterValid(it)
    ensures IterValid(r.0) && r.0.nodes == it.nodes
    ensures r.1.None? <==> Yet(it) == []
    ensures r.1.None? ==> r.0 == it
    ensures r.1.Some? ==> Yet(it) == [r.1.value] + Yet(r.0)
  {
    match it.next
    case None => (it, None)
    case Some(a) =>
      NextStep(it);
      match Deref(it.nodes, a)
      case None => (it, None)
      case Some(node) => (Iter(it.nodes, node.next), Some(node.elem))
  }

  /** One step of the iterator over a chain. */
  lemma NextStep<T>(it: Iter<T>)
    requires IterValid(it) && it.next.Some?
    ensures var k := Pos(it); var after := Iter(it.nodes, it.nodes[k].next);
      && Deref(it.nodes, it.next.value) == Some(it.nodes[k])
      && IterValid(after) && Pos(after) == k + 1
      && Yet(it) == [it.nodes[k].elem] + Yet(after)
  {
    var k := Pos(it);
    FindDistinct(Addrs(it.nodes), k);
    if k + 1 < |it.nodes| {
      assert it.nodes[k].next == Some(it.nodes[k + 1].addr);
      FindDistinct(Addrs(it.nodes), k + 1);
    }
    SplitFirst(Elems(it.nodes), k);
  }

  /** Running the iterator to the end yields the queue head to tail. */
  method Collect<T>(q: List<T>) returns (out: seq<T>)
    requires Valid(q)
    ensures out == Contents(q)
  {
    var it := Iterate(q);
    out := [];
    while it.next.Some?
      invariant IterValid(it) && it.nodes == q.nodes && out + Yet(it) == Contents(q)
      decreases |Yet(it)|
    {
      var r := Next(it);
      Associative(out, [r.1.value], Yet(r.0));
      out := out + [r.1.value];
      it := r.0;
    }
  }

  /** Popping until `None`, as the queue's `Drop` does, yields the
      contents in the order they were pushed. */
  method Drain<T>(q: List<T>) returns (out: seq<T>, empty: List<T>)
    requires Valid(q)
    ensures out == Contents(q)
    ensures Valid(empty) && Contents(empty) == [] && empty.head == None && empty.tail == None
  {
    out := [];
    empty := q;
    var done := false;
    while !done
      invariant Valid(empty) && out + Contents(empty) == Contents(q)
      invariant done ==> Contents(empty) == []
      decreases |Contents(empty)|, !done
    {
      var r := Pop(empty);
      DrainStep(empty, out, Contents(q));
      if r.1.Some? {
        out := out + [r.1.value];
        empty := r.0;
      } else {
        done := true;
      }
    }
  }

  /** One turn of `Drain`: a pop moves the oldest element from the queue
      to the end of what was drained, or finds the queue empty. */
  lemma DrainStep<T>(q: List<T>, out: seq<T>, total: seq<T>)
    requires Valid(q) && out + Contents(q) == total
    ensures var r := Pop(q);
      && Valid(r.0)
      && (r.1.None? ==> Contents(q) == [])
      && (r.1.Some? ==> (out + [r.1.value]) + Contents(r.0) == total && |Contents(r.0)| < |Contents(q)|)
  {
    var r := Pop(q);
    if r.1.Some? {
      Associative(out, [r.1.value], Contents(r.0));
    }
  }

  /** First in, first out: pushing onto a queue changes neither what a
      non-empty queue pops next nor the order of the rest. */
  lemma PushThenPop<T>(q: List<T>, x: T)
    requires Valid(q)
    ensures Contents(q) == [] ==> Pop(Push(q, x)).1 == Some(x) && Contents(Pop(Push(q, x)).0) == []
    ensures Contents(q) != [] ==>
      && Pop(Push(q, x)).1 == Pop(q).1
      && Contents(Pop(Push(q, x)).0) == Contents(Pop(q).0) + [x]
  {
    var p := Push(q, x);
    if Contents(q) != [] {
      assert Contents(p) == [Contents(q)[0]] + (Contents(q)[1..] + [x]);
    }
  }

  /** The first half of the `basics` test: popping an empty queue gives
      nothing, and after pushing 1, 2, 3 the pops give 1 then 2, with 3
      left in the queue. */
  lemma Basics()
    ensures Pop(New<int>()).1 == None
    ensures var q := Push(Push(Push(New<int>(), 1), 2), 3);
      && Pop(q).1 == Some(1)
      && Pop(Pop(q).0).1 == Some(2)
      && Contents(Pop(Pop(q).0).0) == [3]
  {
    var q := Push(Push(Push(New<int>(), 1), 2), 3);
    assert Contents(q) == [1] + [2, 3];
    PopsFirst(q, 1, [2, 3]);
    PopsFirst(Pop(q).0, 2, [3]);
  }

  /** What a pop gives is fixed by the contents alone. */
  lemma PopsFirst<T>(q: List<T>, x: T, rest: seq<T>)
    requires Valid(q) && Contents(q) == [x] + rest
    ensures Pop(q).1 == Some(x) && Contents(Pop(q).0) == rest
  {
    var r := Pop(q);
    assert Contents(q)[0] == x;
    assert Contents(q)[1..] == rest;
  }
}
