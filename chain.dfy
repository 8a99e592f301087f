/** The list elements of queue.c and the shape of a NULL-terminated chain of
    them, described by the ghost sequence of its nodes in link order. */
module Chain {
  import opened Text
  import opened Reversal

  /** A list element: one stored text and the link to the next element. The
      text is set once, when the element is made, and never rewritten. */
  class Node {
    const value: Text
    var next: Node?

    constructor (value: Text, next: Node?)
      ensures this.value == value && this.next == next
    {
      this.value := value;
      this.next := next;
    }
  }

  /** Each node of ns links to the one after it. */
  ghost predicate Linked(ns: seq<Node>)
    reads ns
  {
    forall k :: 0 <= k < |ns| - 1 ==> ns[k].next == ns[k + 1]
  }

  /** Following next from h visits exactly ns, in order, and then NULL. */
  ghost predicate IsChain(h: Node?, ns: seq<Node>)
    reads ns
  {
    (if ns == [] then h == null else h == ns[0]) &&
    Linked(ns) &&
    (ns != [] ==> ns[|ns| - 1].next == null)
  }

  /** The texts stored in ns, in order. */
  function Values(ns: seq<Node>): seq<Text>
  {
    seq(|ns|, k requires 0 <= k < |ns| => ns[k].value)
  }

  /** No node occurs twice in ns. */
  ghost predicate Distinct(ns: seq<Node>)
  {
    ns == [] || (ns[0] !in ns[1..] && Distinct(ns[1..]))
  }

  /** In a sequence without repeated nodes, different positions hold
      different nodes. */
  lemma {:induction false} DistinctAt(ns: seq<Node>)
    requires Distinct(ns)
    ensures forall i, j :: 0 <= i < j < |ns| ==> ns[i] != ns[j]
  {
    if ns != [] {
      DistinctAt(ns[1..]);
      forall i, j | 0 <= i < j < |ns|
        ensures ns[i] != ns[j]
      {
        if i > 0 {
          assert ns[i] == ns[1..][i - 1] && ns[j] == ns[1..][j - 1];
        } else {
          assert ns[j] == ns[1..][j - 1];
        }
      }
    }
  }

  /** Different positions holding different nodes means no repeated node. */
  lemma {:induction false} DistinctFromAt(ns: seq<Node>)
    requires forall i, j :: 0 <= i < j < |ns| ==> ns[i] != ns[j]
    ensures Distinct(ns)
  {
    if ns != [] {
      forall i, j | 0 <= i < j < |ns| - 1
        ensures ns[1..][i] != ns[1..][j]
      {
        assert ns[1..][i] == ns[i + 1] && ns[1..][j] == ns[j + 1];
      }
      DistinctFromAt(ns[1..]);
      forall k | 0 <= k < |ns| - 1
        ensures ns[1..][k] != ns[0]
      {
        assert ns[1..][k] == ns[k + 1];
      }
    }
  }

  ghost function NodeSet(ns: seq<Node>): set<object>
  {
    set n | n in ns
  }

  /** Sequences that are a permutation of each other hold the same nodes. */
  lemma NodeSetPermuted(a: seq<Node>, b: seq<Node>)
    requires multiset(a) == multiset(b)
    ensures NodeSet(a) == NodeSet(b)
  {
    forall x: Node | x in a
      ensures x in b
    {
      assert x in multiset(a);
    }
    forall x: Node | x in b
      ensures x in a
    {
      assert x in multiset(b);
    }
  }

  /** Every node of a chain but the last links to another node. */
  lemma ChainLinksOn(h: Node?, ns: seq<Node>)
    requires IsChain(h, ns)
    ensures forall k :: 0 <= k < |ns| - 1 ==> ns[k].next != null
  {
    forall k | 0 <= k < |ns| - 1
      ensures ns[k].next != null
    {
      assert ns[k].next == ns[k + 1];
    }
  }

  /** A chain that ends in NULL visits no node twice: it has no cycle. */
  lemma ChainDistinct(h: Node?, ns: seq<Node>)
    requires IsChain(h, ns)
    ensures Distinct(ns)
  {
    forall i, j | 0 <= i < j < |ns|
      ensures ns[i] != ns[j]
    {
      var m := |ns| - 1 - j;
      assert ns[i + m].next == ns[i + m + 1];
      DifferentBefore(ns, i, j, m);
    }
    DistinctFromAt(ns);
  }

  /** In a linked sequence, nodes that differ m steps after positions i and j
      already differ at i and j. */
  lemma {:induction false} DifferentBefore(ns: seq<Node>, i: nat, j: nat, m: nat)
    requires Linked(ns) && i < j && j + m < |ns| && ns[i + m] != ns[j + m]
    ensures ns[i] != ns[j]
  {
    if m > 0 {
      assert ns[i + m - 1].next == ns[i + m] && ns[j + m - 1].next == ns[j + m];
      DifferentBefore(ns, i, j, m - 1);
    }
  }

  /** The texts of a concatenation are the concatenated texts. */
  lemma ValuesAppend(a: seq<Node>, b: seq<Node>)
    ensures Values(a + b) == Values(a) + Values(b)
  {
  }

  /** Nodes that are a permutation of each other store texts that are a
      permutation of each other. */
  lemma {:induction false} ValuesMultiset(a: seq<Node>, b: seq<Node>)
    requires multiset(a) == multiset(b)
    ensures multiset(Values(a)) == multiset(Values(b))
    decreases |a|
  {
    if a == [] {
      assert |b| == |multiset(b)| == 0;
    } else {
      var x := a[0];
      assert x in multiset(b);
      var k :| 0 <= k < |b| && b[k] == x;
      var rest := b[..k] + b[k + 1..];
      assert b == b[..k] + [x] + b[k + 1..];
      assert multiset(b) == multiset(b[..k]) + multiset{x} + multiset(b[k + 1..]);
      assert a == [x] + a[1..];
      assert multiset(a) == multiset{x} + multiset(a[1..]);
      assert multiset(rest) == multiset(b[..k]) + multiset(b[k + 1..]);
      assert multiset(a[1..]) == multiset(a) - multiset{x};
      assert multiset(rest) == multiset(b) - multiset{x};
      ValuesMultiset(a[1..], rest);
      ValuesAppend([x], a[1..]);
      ValuesAppend(b[..k] + [x], b[k + 1..]);
      ValuesAppend(b[..k], [x]);
      ValuesAppend(b[..k], b[k + 1..]);
    }
  }

  /** A store of x through a link slot: into the list's head variable while
      last is null, into last->next otherwise. Only that one link changes:
      the nodes out, which end in last, stay linked and now lead to x, and
      the chains xs and ys, which do not hold last, keep their links. */
  method Store(head: Node?, last: Node?, x: Node?, ghost out: seq<Node>, ghost xs: seq<Node>,
               ghost y: Node?, ghost ys: seq<Node>)
    returns (newHead: Node?)
    requires IsChain(x, xs) && IsChain(y, ys)
    requires out == [] ==> last == null
    requires out != [] ==> last == out[|out| - 1] && Linked(out)
    requires out != [] ==> last !in out[..|out| - 1] && last !in xs && last !in ys
    modifies last
    ensures newHead == if last == null then x else head
    ensures IsChain(x, xs) && IsChain(y, ys)
    ensures out != [] ==> Linked(out) && last.next == x
  {
    newHead := head;
    if last == null {
      newHead := x;
    } else {
      label Before:
      last.next := x;
      ChainKept@Before(xs);
      ChainKept@Before(ys);
      LinkedKept@Before(out);
    }
  }

  /** A store into a node outside s leaves the chain s describes as it was. */
  twostate lemma ChainKept(s: seq<Node>)
    requires old(Linked(s)) && (s != [] ==> old(s[|s| - 1].next) == null)
    requires forall x | x in s :: x.next == old(x.next)
    ensures Linked(s) && (s != [] ==> s[|s| - 1].next == null)
  {
  }

  /** A store into the last node of p leaves the links between its nodes. */
  twostate lemma LinkedKept(p: seq<Node>)
    requires p != [] && old(Linked(p))
    requires forall x | x in p[..|p| - 1] :: x.next == old(x.next)
    ensures Linked(p)
  {
    forall k | 0 <= k < |p| - 1
      ensures p[k].next == p[k + 1]
    {
      assert p[k] in p[..|p| - 1];
    }
  }

  /** In a sequence p + q without repeated nodes, the last node of p occurs
      neither earlier in p nor in q. */
  lemma DistinctParts(p: seq<Node>, q: seq<Node>)
    requires p != [] && Distinct(p + q)
    ensures p[|p| - 1] !in p[..|p| - 1] && p[|p| - 1] !in q
  {
    var n := |p| - 1;
    DistinctAt(p + q);
    forall k | 0 <= k < n
      ensures p[..n][k] != p[n]
    {
      assert p[..n][k] == (p + q)[k] && p[n] == (p + q)[n];
    }
    forall j | 0 <= j < |q|
      ensures q[j] != p[n]
    {
      assert q[j] == (p + q)[|p| + j] && p[n] == (p + q)[n];
    }
  }

  /** A linked list of nodes whose last link leads into the chain t makes,
      with t, one chain. */
  lemma JoinedChain(head: Node?, out: seq<Node>, t: seq<Node>)
    requires IsChain(if t == [] then null else t[0], t)
    requires out == [] ==> head == (if t == [] then null else t[0])
    requires out != [] ==> head == out[0] && Linked(out) && out[|out| - 1].next == (if t == [] then null else t[0])
    ensures IsChain(head, out + t)
  {
  }

  /** A chain holds at least its first node, and the rest of it starts at
      that node's next link. */
  lemma ChainRest(h: Node, s: seq<Node>)
    requires IsChain(h, s)
    ensures s != [] && IsChain(h.next, s[1..])
  {
  }

  /** The k-th node of a sequence without repeated nodes is in neither the
      reversal of the nodes before it nor the nodes after it, and it comes
      first in the reversal of the nodes up to it. */
  lemma ReverseLinkApart(ns: seq<Node>, k: nat)
    requires Distinct(ns) && k < |ns|
    ensures ns[k] !in Reversed(ns[..k]) && ns[k] !in ns[k + 1..]
    ensures Reversed(ns[..k + 1]) == [ns[k]] + Reversed(ns[..k])
  {
    DistinctAt(ns);
    forall j | 0 <= j < k
      ensures ns[..k][j] != ns[k]
    {
      assert ns[..k][j] == ns[j];
    }
    var rest := ns[k + 1..];
    forall j | 0 <= j < |rest|
      ensures rest[j] != ns[k]
    {
      assert rest[j] == ns[k + 1 + j];
    }
    ReversedMember(ns[..k], ns[k]);
    ReversedPrefix(ns, k);
  }
}
