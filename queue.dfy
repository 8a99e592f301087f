/** queue.c: a queue of strings kept as a NULL-terminated singly linked list,
    with a pointer to its first element, a pointer to its last element and
    a running count of its elements. */
module StringQueue {
  import opened Text
  import opened Chain
  import opened Reversal
  import opened MergeSortSpec
  import opened ListSort

  /** queue_t. The ghost field nodes lists the elements in link order; Repr
      is the record itself together with those elements. */
  class Queue {
    var head: Node?
    var tail: Node?
    var size: nat
    ghost var nodes: seq<Node>
    ghost var Repr: set<object>

    /** head starts the chain of the elements, size counts them, and tail
        is the last of them whenever there is one. On an empty queue tail
        is unconstrained: q_remove_head leaves it at the removed element. */
    ghost predicate Valid()
      reads this, Repr
    {
      this in Repr && Repr == {this} + NodeSet(nodes) &&
      IsChain(head, nodes) &&
      size == |nodes| &&
      (size > 0 ==> tail == nodes[|nodes| - 1])
    }

    /** The stored strings, first to last. */
    ghost function Contents(): seq<Text>
      reads this
    {
      Values(nodes)
    }

    /** The record q_new fills in once malloc has succeeded. */
    constructor ()
      ensures Valid() && fresh(Repr)
      ensures head == null && tail == null && size == 0 && Contents() == []
    {
      head, tail, size := null, null, 0;
      nodes := [];
      Repr := {this};
    }
  }

  /** q_new: NULL when the record cannot be allocated, otherwise a new empty
      queue. */
  method New(allocOk: bool) returns (q: Queue?)
    ensures q != null <==> allocOk
    ensures q != null ==> fresh(q.Repr) && q.Valid() && q.Contents() == []
    ensures q != null ==> q.head == null && q.tail == null && q.size == 0
  {
    if !allocOk {
      return null;
    }
    q := new Queue();
  }

  /** q_free: walks the chain from head, taking each element out of the
      queue in turn (released lists them in that order), until head is
      NULL. Releasing the record itself is not modelled. */
  method Free(q: Queue?) returns (ghost released: seq<Node>)
    requires q != null ==> q.Valid()
    modifies q
    ensures q == null ==> released == []
    ensures q != null ==> released == old(q.nodes) && q.head == null && q.nodes == [] && q.Repr == {q}
  {
    released := [];
    if q == null {
      return;
    }
    ghost var rest := q.nodes;
    while q.head != null
      invariant IsChain(q.head, rest)
      invariant released + rest == old(q.nodes)
      decreases |rest|
    {
      var tmp: Node := q.head;
      ChainRest(tmp, rest);
      assert rest == [tmp] + rest[1..];
      MoveFront(old(q.nodes), released, tmp, rest[1..]);
      label Before:
      q.head := tmp.next;
      ChainKept@Before(rest[1..]);
      released, rest := released + [tmp], rest[1..];
    }
    q.nodes := [];
    q.Repr := {q};
  }

  /** q_insert_head: false, and nothing changes, when q is NULL or either
      allocation fails; otherwise s is stored in a new first element. */
  method InsertHead(q: Queue?, s: Text, nodeOk: bool, valueOk: bool) returns (ok: bool)
    requires q != null ==> q.Valid()
    modifies q
    ensures ok <==> q != null && nodeOk && valueOk
    ensures q != null && !ok ==> unchanged(q)
    ensures q != null && ok ==> q.Valid() && fresh(q.head) && q.Repr == old(q.Repr) + {q.head}
    ensures q != null && ok ==> q.nodes == [q.head] + old(q.nodes)
    ensures q != null && ok ==> q.Contents() == [s] + old(q.Contents()) && q.size == old(q.size) + 1
    ensures q != null && ok ==> q.tail == if old(q.size) == 0 then q.head else old(q.tail)
  {
    if q == null || !nodeOk {
      return false;
    }
    if !valueOk {
      // the element already allocated is released again
      return false;
    }
    var newh := new Node(s, q.head);
    q.head := newh;
    if q.size == 0 {
      q.tail := newh;
    }
    q.size := q.size + 1;
    q.nodes := [newh] + q.nodes;
    q.Repr := q.Repr + {newh};
    ValuesAppend([newh], old(q.nodes));
    ok := true;
  }

  /** q_insert_tail: false, and nothing changes, when q is NULL or either
      allocation fails; otherwise s is stored in a new last element, which
      the old last element (if any) now links to. */
  method InsertTail(q: Queue?, s: Text, nodeOk: bool, valueOk: bool) returns (ok: bool)
    requires q != null ==> q.Valid()
    modifies q, if q == null then {} else q.Repr
    ensures ok <==> q != null && nodeOk && valueOk
    ensures q != null && !ok ==> unchanged(q) && unchanged(q.Repr)
    ensures q != null && ok ==> q.Valid() && fresh(q.tail) && q.Repr == old(q.Repr) + {q.tail}
    ensures q != null && ok ==> q.nodes == old(q.nodes) + [q.tail]
    ensures q != null && ok ==> q.Contents() == old(q.Contents()) + [s] && q.size == old(q.size) + 1
    ensures q != null && ok ==> q.head == if old(q.size) == 0 then q.tail else old(q.head)
  {
    if q == null || !nodeOk {
      return false;
    }
    if !valueOk {
      // the element already allocated is released again
      return false;
    }
    var node := new Node(s, null);
    if q.size == 0 {
      q.head := node;
    } else {
      ChainDistinct(q.head, q.nodes);
      assert q.nodes + [] == q.nodes;
      DistinctParts(q.nodes, []);
      var _ := Store(q.head, q.tail, node, q.nodes, [node], null, []);
      JoinedChain(q.head, q.nodes, [node]);
    }
    q.tail := node;
    q.size := q.size + 1;
    q.nodes := q.nodes + [node];
    q.Repr := q.Repr + {node};
    ValuesAppend(old(q.nodes), [node]);
    ok := true;
  }

  /** The number of characters q_remove_head copies out of a string of length
      len into a buffer of bufsize characters: all of them when they fit
      with the NUL, otherwise bufsize - 1. */
  function CopyLength(len: nat, bufsize: nat): (n: nat)
    requires bufsize >= 1
    ensures n <= len && n < bufsize
    ensures n == len || n == bufsize - 1
  {
    if len < bufsize - 1 then len else bufsize - 1
  }

  /** q_remove_head: false, and nothing changes, when q is NULL or empty.
      Otherwise the first element leaves the queue and, when sp is not NULL,
      the first CopyLength(|v|, bufsize) characters of its string v are
      copied into sp, followed by a NUL, so that sp reads back as that
      prefix of v; the rest of sp is left as it was.
      tail is not touched, even when the queue becomes empty. */
  method RemoveHead(q: Queue?, sp: array?<char>, bufsize: nat) returns (ok: bool)
    requires q != null ==> q.Valid()
    requires sp != null ==> 1 <= bufsize <= sp.Length
    modifies q, sp
    ensures ok <==> q != null && old(q.head) != null
    ensures q != null && !ok ==> unchanged(q)
    ensures sp != null && !ok ==> unchanged(sp)
    ensures ok ==> q.Valid() && q.Repr == old(q.Repr) - {old(q.head)} && q.tail == old(q.tail)
    ensures ok ==> q.nodes == old(q.nodes)[1..]
    ensures ok ==> q.Contents() == old(q.Contents())[1..] && q.size == old(q.size) - 1
    ensures ok && sp != null ==>
      var v := old(q.Contents())[0];
      var n := CopyLength(|v|, bufsize);
      sp[..n] == v[..n] && sp[n] == '\0' && sp[n + 1..] == old(sp[n + 1..]) &&
      CStringIn(sp[..]) == v[..n]
  {
    if q == null || q.head == null {
      return false;
    }
    var tmp := q.head;
    if sp != null {
      var n := CopyLength(|tmp.value|, bufsize);
      CopyOut(sp, tmp.value, n);
      CStringOfTerminated(sp[..], tmp.value, n);
    }
    Unlink(q);
    ok := true;
  }

  /** strncpy(sp, v, n) followed by sp[n] = '\0', for n at most |v|: the
      first n characters of v, then a NUL, and nothing after it touched. */
  method CopyOut(sp: array<char>, v: Text, n: nat)
    requires n <= |v| && n < sp.Length
    modifies sp
    ensures sp[..n] == v[..n] && sp[n] == '\0' && sp[n + 1..] == old(sp[n + 1..])
  {
    var i := 0;
    while i < n
      invariant 0 <= i <= n
      invariant sp[..i] == v[..i]
      invariant sp[n..] == old(sp[n..])
    {
      sp[i] := v[i];
      i := i + 1;
    }
    sp[n] := '\0';
  }

  /** The unlinking of q_remove_head: head moves to the second element and
      size drops by one; tail stays where it was. */
  method Unlink(q: Queue)
    requires q.Valid() && q.head != null
    modifies q
    ensures q.Valid() && q.Repr == old(q.Repr) - {old(q.head)}
    ensures q.nodes == old(q.nodes)[1..] && q.Contents() == old(q.Contents())[1..]
    ensures q.size == old(q.size) - 1 && q.tail == old(q.tail)
  {
    var tmp := q.head;
    ChainRest(tmp, q.nodes);
    ChainDistinct(q.head, q.nodes);
    q.head := tmp.next;
    q.size := q.size - 1;
    q.nodes := q.nodes[1..];
    q.Repr := q.Repr - {tmp};
    ValuesAppend([tmp], q.nodes);
    assert old(q.nodes) == [tmp] + q.nodes;
  }

  /** q_size: the number of stored strings, 0 for a NULL queue. */
  function Size(q: Queue?): (n: nat)
    requires q != null ==> q.Valid()
    reads q, if q == null then {} else q.Repr
    ensures n == if q == null then 0 else |q.Contents()|
  {
    if q == null then 0 else q.size
  }

  /** q_reverse: nothing happens when q is NULL or empty; otherwise the
      existing elements are relinked in the opposite order, without any
      element being made or released, and the old first element becomes
      the last one. */
  method Reverse(q: Queue?)
    requires q != null ==> q.Valid()
    modifies if q == null then {} else q.Repr
    ensures q != null ==> q.Valid() && q.Repr == old(q.Repr) && q.size == old(q.size)
    ensures q != null ==> q.nodes == Reversed(old(q.nodes)) && q.Contents() == Reversed(old(q.Contents()))
    ensures q != null && old(q.head) == null ==> q.tail == old(q.tail)
    ensures q != null && old(q.head) != null ==> q.tail == old(q.head)
  {
    if q == null || q.head == null {
      return;
    }
    ghost var ns := q.nodes;
    var pre, next := Detach(q, ns);
    ghost var k := 1;
    while next != null
      invariant 1 <= k <= |ns| && q.nodes == ns
      invariant q.Repr == old(q.Repr) && q.size == old(q.size) && q.tail == ns[0]
      invariant q.head == pre && IsChain(pre, Reversed(ns[..k]))
      invariant IsChain(next, ns[k..])
      decreases |ns| - k
    {
      pre, next := Relink(q, pre, next, ns, k);
      k := k + 1;
    }
    assert k == |ns|;
    assert ns[..k] == ns;
    q.nodes := Reversed(ns);
    ReversedNodes(ns);
    ReversedValues(ns);
  }

  /** The start of q_reverse: the first element becomes the last one, its
      link cleared, and the walk starts from the second element. */
  method Detach(q: Queue, ghost ns: seq<Node>) returns (pre: Node, next: Node?)
    requires q.Valid() && q.head != null && ns == q.nodes
    modifies q, q.head
    ensures pre == ns[0] && q.head == pre && q.tail == pre && Distinct(ns)
    ensures IsChain(pre, Reversed(ns[..1])) && IsChain(next, ns[1..])
    ensures q.nodes == ns && q.Repr == old(q.Repr) && q.size == old(q.size)
  {
    ChainDistinct(q.head, ns);
    ChainRest(q.head, ns);
    pre := q.head;
    next := q.head.next;
    q.tail := q.head;
    assert [pre] + ns[1..] == ns;
    DistinctParts([pre], ns[1..]);
    var _ := Store(null, q.tail, null, [pre], [], next, ns[1..]);
    assert ns[..1] == [pre];
  }

  /** One turn of the loop of q_reverse: head moves on to next, which is
      then linked back to pre; the reversed prefix grows by that node. */
  method Relink(q: Queue, pre: Node, next: Node, ghost ns: seq<Node>, ghost k: nat)
    returns (newPre: Node, newNext: Node?)
    requires Distinct(ns) && 1 <= k < |ns| && q.head == pre
    requires IsChain(pre, Reversed(ns[..k])) && IsChain(next, ns[k..])
    modifies q, next
    ensures q.head == newPre && newPre == next
    ensures IsChain(newPre, Reversed(ns[..k + 1])) && IsChain(newNext, ns[k + 1..])
    ensures q.tail == old(q.tail) && q.nodes == old(q.nodes) && q.Repr == old(q.Repr) && q.size == old(q.size)
  {
    label L:
    q.head := next;
    ChainKept@L(Reversed(ns[..k]));
    ChainKept@L(ns[k..]);
    ChainRest(next, ns[k..]);
    newNext := next.next;
    ReverseLinkApart(ns, k);
    var _ := Store(null, q.head, pre, [q.head], Reversed(ns[..k]), newNext, ns[k + 1..]);
    JoinedChain(q.head, [q.head], Reversed(ns[..k]));
    newPre := q.head;
  }

  /** The reversal of a non-empty sequence of nodes holds the same nodes and
      ends in the first one. */
  lemma ReversedNodes(ns: seq<Node>)
    requires ns != []
    ensures NodeSet(Reversed(ns)) == NodeSet(ns)
    ensures |Reversed(ns)| == |ns| && Reversed(ns)[|ns| - 1] == ns[0]
  {
    ReversedMultiset(ns);
    NodeSetPermuted(Reversed(ns), ns);
    ReversedAt(ns, |ns| - 1);
  }

  /** The texts of the reversed nodes are the reversed texts. */
  lemma ReversedValues(ns: seq<Node>)
    ensures Values(Reversed(ns)) == Reversed(Values(ns))
  {
    ReversedLength(ns);
    ReversedLength(Values(ns));
    forall k | 0 <= k < |ns|
      ensures Values(Reversed(ns))[k] == Reversed(Values(ns))[k]
    {
      ReversedAt(ns, k);
      ReversedAt(Values(ns), k);
    }
  }

  /** q_sort: nothing happens when q is NULL or empty; otherwise mergeSort
      relinks the existing elements so that their strings ascend by strcmp,
      and tail is then walked forward from the old last element, which is
      still in the list, to the new last one. */
  method Sort(q: Queue?)
    requires q != null ==> q.Valid()
    modifies if q == null then {} else q.Repr
    ensures q != null ==> q.Valid() && q.Repr == old(q.Repr) && q.size == old(q.size)
    ensures q != null ==> q.nodes == MergeSorted(old(q.nodes))
    ensures q != null ==> Ascending(q.Contents()) && multiset(q.Contents()) == multiset(old(q.Contents()))
    ensures q != null && old(q.head) == null ==> q.tail == old(q.tail)
  {
    if q == null || q.head == null {
      return;
    }
    ghost var ns := q.nodes;
    ghost var last := q.tail;
    var sorted := MergeSortList(q.head, ns);
    q.head := sorted;
    q.nodes := MergeSorted(ns);
    SortedNodes(ns, last);
    ghost var j :| 0 <= j < |q.nodes| && q.nodes[j] == last;
    WalkToTail(q, j);
  }

  /** Whatever q_sort makes of a queue holding "c", "a" and "b", in any
      order, holds "a", "b", "c" from head to tail. */
  lemma SortExample(s: seq<Text>)
    requires Ascending(s) && multiset(s) == multiset(["c", "a", "b"])
    ensures s == ["a", "b", "c"]
  {
    var t: seq<Text> := ["a", "b", "c"];
    assert multiset(t) == multiset(["c", "a", "b"]);
    assert !Less(t[1], t[0]) && !Less(t[2], t[1]) && !Less(t[2], t[0]);
    AscendingUnique(s, t);
  }

  /** What the relinking by mergeSort leaves for the queue's invariant: the
      same nodes, as many, with their strings ascending and the same
      multiset of strings, the old last node among them. */
  lemma SortedNodes(ns: seq<Node>, last: Node)
    requires last in ns
    ensures |MergeSorted(ns)| == |ns| && NodeSet(MergeSorted(ns)) == NodeSet(ns)
    ensures last in MergeSorted(ns)
    ensures Ascending(Values(MergeSorted(ns)))
    ensures multiset(Values(MergeSorted(ns))) == multiset(Values(ns))
  {
    var ms := MergeSorted(ns);
    MergeSortedMember(ns, last);
    MergeSortedPermutation(ns);
    NodeSetPermuted(ms, ns);
    assert |ms| == |multiset(ms)| == |multiset(ns)| == |ns|;
    MergeSortedAscending(ns);
    MergeSortedValues(ns);
  }

  /** The loop that ends q_sort: tail, at position j of the chain from head,
      follows next until it reaches the element whose next is NULL, which
      makes the queue whole again. */
  method WalkToTail(q: Queue, ghost j: nat)
    requires q in q.Repr && q.Repr == {q} + NodeSet(q.nodes) && q.size == |q.nodes|
    requires IsChain(q.head, q.nodes) && j < |q.nodes| && q.tail == q.nodes[j]
    modifies q
    ensures q.Valid()
    ensures q.head == old(q.head) && q.nodes == old(q.nodes) && q.Repr == old(q.Repr) && q.size == old(q.size)
  {
    ghost var ms := q.nodes;
    ghost var i := j;
    while q.tail.next != null
      invariant i < |ms| && q.tail == ms[i] && IsChain(q.head, ms)
      invariant q.head == old(q.head) && q.nodes == ms && q.Repr == old(q.Repr) && q.size == old(q.size)
      decreases |ms| - i
    {
      q.tail := q.tail.next;
      i := i + 1;
    }
    ChainLinksOn(q.head, ms);
  }
}
