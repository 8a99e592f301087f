/** The static helpers behind q_sort: merge relinks two chains into one, and
    mergeSort splits a chain at its middle, sorts both halves and merges them.
    Both work in place on the nodes' next links and allocate nothing. */
module ListSort {
  import opened Text
  import opened Chain
  import opened MergeSortSpec

  /** The slow/fast walk of mergeSort: slow stops on the last node of the
      left half, which holds ceil(n/2) nodes. */
  method Middle(head: Node, ghost ns: seq<Node>) returns (slow: Node)
    requires IsChain(head, ns) && |ns| >= 2
    ensures slow == ns[(|ns| + 1) / 2 - 1]
  {
    slow := head;
    var fast := head.next;
    ghost var s := 0;
    while fast != null && fast.next != null
      invariant 2 * s + 1 <= |ns|
      invariant slow == ns[s]
      invariant fast == if 2 * s + 1 < |ns| then ns[2 * s + 1] else null
      invariant fast != null ==> fast.next == if 2 * s + 2 < |ns| then ns[2 * s + 2] else null
      decreases |ns| - 2 * s
    {
      assert slow.next == ns[s + 1];
      slow := slow.next;
      fast := fast.next.next;
      s := s + 1;
    }
  }

  /** mergeSort: a chain of at most one node is returned as it is; a longer
      one is cut after its middle node, both halves are sorted, and the
      results are merged. */
  method MergeSortList(head: Node?, ghost ns: seq<Node>) returns (sorted: Node?)
    requires IsChain(head, ns)
    modifies ns
    ensures IsChain(sorted, MergeSorted(ns))
    decreases |ns|, 2
  {
    ShortChain(head, ns);
    if head == null || head.next == null {
      return head;
    }
    ghost var h := (|ns| + 1) / 2;
    ghost var left, right := ns[..h], ns[h..];
    ChainDistinct(head, ns);
    assert ns == left + right;
    var mid := Split(head, ns);
    var l, r := SortHalves(head, mid, ns, left, right);
    sorted := MergeHalves(l, r, ns, left, right);
  }

  /** The final merge of mergeSort, of the two sorted halves. */
  method MergeHalves(l: Node?, r: Node?, ghost ns: seq<Node>, ghost left: seq<Node>, ghost right: seq<Node>)
    returns (sorted: Node?)
    requires Distinct(ns) && ns == left + right
    requires IsChain(l, MergeSorted(left)) && IsChain(r, MergeSorted(right))
    modifies ns
    ensures IsChain(sorted, Merged(MergeSorted(left), MergeSorted(right)))
  {
    SortedHalvesApart(ns, left, right);
    sorted := MergeLists(l, MergeSorted(left), r, MergeSorted(right));
  }

  /** The two recursive calls of mergeSort, on the halves left and right
      of the chain that was cut. */
  method SortHalves(head: Node?, mid: Node?, ghost ns: seq<Node>, ghost left: seq<Node>, ghost right: seq<Node>)
    returns (l: Node?, r: Node?)
    requires Distinct(ns) && ns == left + right && left != [] && right != []
    requires IsChain(head, left) && IsChain(mid, right)
    modifies ns
    ensures IsChain(l, MergeSorted(left)) && IsChain(r, MergeSorted(right))
    decreases |ns|, 1
  {
    HalvesApart(ns, left, right);
    l := SortBeside(head, left, mid, right);
    SortedHalvesApart(ns, left, right);
    r := SortBeside(mid, right, l, MergeSorted(left));
  }

  /** One recursive call of mergeSort, on the chain of one half. The chain
      of the other half, which shares no node with it, keeps its links. */
  method SortBeside(h: Node?, ghost xs: seq<Node>, other: Node?, ghost ys: seq<Node>)
    returns (sorted: Node?)
    requires IsChain(h, xs) && IsChain(other, ys)
    requires forall y :: y in ys ==> y !in xs
    modifies xs
    ensures IsChain(sorted, MergeSorted(xs)) && IsChain(other, ys)
    decreases |xs|, 3
  {
    label Before:
    sorted := MergeSortList(h, xs);
    ChainKept@Before(ys);
  }

  /** A chain holds at most one node exactly when it is empty or its first
      node links to NULL. */
  lemma ShortChain(head: Node?, ns: seq<Node>)
    requires IsChain(head, ns)
    ensures (head == null || head.next == null) <==> |ns| <= 1
  {
    if |ns| >= 2 {
      assert head.next == ns[1];
    }
  }

  /** The cut of mergeSort: slow->next = NULL after the middle node leaves
      the first ceil(n/2) nodes and the rest as two separate chains. */
  method Split(head: Node, ghost ns: seq<Node>) returns (mid: Node?)
    requires IsChain(head, ns) && |ns| >= 2
    modifies ns
    ensures IsChain(head, ns[..(|ns| + 1) / 2]) && IsChain(mid, ns[(|ns| + 1) / 2..])
  {
    ghost var h := (|ns| + 1) / 2;
    var slow := Middle(head, ns);
    mid := slow.next;
    ChainDistinct(head, ns);
    assert ns == ns[..h] + ns[h..];
    DistinctParts(ns[..h], ns[h..]);
    var _ := Store(head, slow, null, ns[..h], [], mid, ns[h..]);
  }

  /** The two halves of a sequence without repeated nodes share no node. */
  lemma HalvesApart(ns: seq<Node>, left: seq<Node>, right: seq<Node>)
    requires Distinct(ns) && ns == left + right
    ensures forall x :: x in left ==> x in ns && x !in right
    ensures forall x :: x in right ==> x in ns && x !in left
    ensures forall i :: 0 <= i < |left| ==> left[i] in ns
    ensures forall i :: 0 <= i < |right| ==> right[i] in ns
  {
    DistinctAt(ns);
    forall x | x in right
      ensures x in ns && x !in left
    {
      var j :| 0 <= j < |right| && right[j] == x;
      assert ns[|left| + j] == x;
      forall i | 0 <= i < |left|
        ensures left[i] != x
      {
        assert left[i] == ns[i];
      }
    }
    forall x | x in left
      ensures x in ns
    {
      var i :| 0 <= i < |left| && left[i] == x;
      assert ns[i] == x;
    }
  }

  /** The halves mergeSort sorts are still apart once sorted, and both lie
      within the chain that was cut. */
  lemma SortedHalvesApart(ns: seq<Node>, left: seq<Node>, right: seq<Node>)
    requires Distinct(ns) && ns == left + right
    ensures multiset(MergeSorted(left)) !! multiset(MergeSorted(right))
    ensures forall x :: x in MergeSorted(left) ==> x !in right
    ensures forall x :: x in right ==> x !in MergeSorted(left)
    ensures forall i :: 0 <= i < |MergeSorted(left)| ==> MergeSorted(left)[i] in ns
    ensures forall i :: 0 <= i < |MergeSorted(right)| ==> MergeSorted(right)[i] in ns
  {
    HalvesApart(ns, left, right);
    forall x | x in MergeSorted(left)
      ensures x in ns && x !in right
    {
      MergeSortedMember(left, x);
    }
    forall x | x in MergeSorted(right)
      ensures x in ns
    {
      MergeSortedMember(right, x);
    }
    forall x | x in multiset(MergeSorted(left))
      ensures x !in multiset(MergeSorted(right))
    {
      MergeSortedMember(left, x);
      MergeSortedMember(right, x);
    }
  }

  /** merge: relinks the chains from left and right into one chain, taking
      the left node only when its text is strictly smaller. The pointer
      iter, which points at the link to fill next, is modelled by last: iter
      is &head while last is null, and &last.next otherwise. */
  method MergeLists(left: Node?, ghost ls: seq<Node>, right: Node?, ghost rs: seq<Node>)
    returns (head: Node?)
    requires IsChain(left, ls) && IsChain(right, rs)
    requires multiset(ls) !! multiset(rs)
    modifies ls, rs
    ensures IsChain(head, Merged(ls, rs))
  {
    ghost var m := Merged(ls, rs);
    ChainDistinct(left, ls);
    ChainDistinct(right, rs);
    head := null;
    var last: Node? := null;
    var l, r := left, right;
    ghost var lrest, rrest, out: seq<Node> := ls, rs, [];
    while l != null && r != null
      invariant IsChain(l, lrest) && IsChain(r, rrest)
      invariant m == out + Merged(lrest, rrest)
      invariant out == [] ==> last == null
      invariant out != [] ==> head == out[0] && last == out[|out| - 1] && Linked(out)
      decreases |lrest| + |rrest|
    {
      head, last, l, r, out, lrest, rrest := MergeStep(ls, rs, m, head, last, l, r, out, lrest, rrest);
    }
    head := StoreRest(ls, rs, m, head, last, l, r, out, lrest, rrest);
  }

  /** The store after merge's loop: once one chain is used up, iter is
      pointed at whatever is left of the other. */
  method StoreRest(ghost ls: seq<Node>, ghost rs: seq<Node>, ghost m: seq<Node>,
                   head: Node?, last: Node?, l: Node?, r: Node?,
                   ghost out: seq<Node>, ghost lrest: seq<Node>, ghost rrest: seq<Node>)
    returns (newHead: Node?)
    requires m == Merged(ls, rs) && Distinct(ls) && Distinct(rs) && multiset(ls) !! multiset(rs)
    requires IsChain(l, lrest) && IsChain(r, rrest) && (l == null || r == null)
    requires m == out + Merged(lrest, rrest)
    requires out == [] ==> last == null
    requires out != [] ==> head == out[0] && last == out[|out| - 1] && Linked(out)
    modifies ls, rs
    ensures IsChain(newHead, m)
  {
    ghost var restNodes: seq<Node> := if l == null then rrest else lrest;
    if last != null {
      LastApart(ls, rs, m, out, lrest, rrest);
    }
    newHead := Store(head, last, if l == null then r else l, out, restNodes, null, []);
    JoinedChain(newHead, out, restNodes);
  }

  /** One pass of merge's loop: the node with the smaller text, or the right
      node on a tie, is stored through iter and leaves its chain. */
  method MergeStep(ghost ls: seq<Node>, ghost rs: seq<Node>, ghost m: seq<Node>,
                   head: Node?, last: Node?, l: Node, r: Node,
                   ghost out: seq<Node>, ghost lrest: seq<Node>, ghost rrest: seq<Node>)
    returns (newHead: Node?, newLast: Node, newL: Node?, newR: Node?,
             ghost newOut: seq<Node>, ghost newLrest: seq<Node>, ghost newRrest: seq<Node>)
    requires m == Merged(ls, rs) && Distinct(ls) && Distinct(rs) && multiset(ls) !! multiset(rs)
    requires IsChain(l, lrest) && IsChain(r, rrest)
    requires m == out + Merged(lrest, rrest)
    requires out == [] ==> last == null
    requires out != [] ==> head == out[0] && last == out[|out| - 1] && Linked(out)
    modifies ls, rs
    ensures IsChain(newL, newLrest) && IsChain(newR, newRrest)
    ensures m == newOut + Merged(newLrest, newRrest)
    ensures newOut != [] && newHead == newOut[0] && newLast == newOut[|newOut| - 1] && Linked(newOut)
    ensures |newLrest| + |newRrest| < |lrest| + |rrest|
    ensures newOut == out + [newLast]
    ensures Less(l.value, r.value) ==> newLast == l && newLrest == lrest[1..] && newRrest == rrest
    ensures !Less(l.value, r.value) ==> newLast == r && newRrest == rrest[1..] && newLrest == lrest
  {
    if last != null {
      LastApart(ls, rs, m, out, lrest, rrest);
    }
    newL, newR, newLrest, newRrest := l, r, lrest, rrest;
    if Less(l.value, r.value) {
      MergedTakesLeft(lrest, rrest);
      MoveFront(m, out, l, Merged(lrest[1..], rrest));
      newHead, newLast, newL := Take(head, last, l, out, lrest, r, rrest);
      newLrest := lrest[1..];
    } else {
      MergedTakesRight(lrest, rrest);
      MoveFront(m, out, r, Merged(lrest, rrest[1..]));
      newHead, newLast, newR := Take(head, last, r, out, rrest, l, lrest);
      newRrest := rrest[1..];
    }
    newOut := out + [newLast];
  }

  /** The store *iter = x, after which iter moves to &x->next and x leaves
      its chain. */
  method Take(head: Node?, last: Node?, x: Node, ghost out: seq<Node>, ghost xs: seq<Node>,
              ghost y: Node?, ghost ys: seq<Node>)
    returns (newHead: Node?, newLast: Node, next: Node?)
    requires IsChain(x, xs) && IsChain(y, ys)
    requires out == [] ==> last == null
    requires out != [] ==> head == out[0] && last == out[|out| - 1] && Linked(out)
    requires out != [] ==> last !in out[..|out| - 1] && last !in xs && last !in ys
    modifies last
    ensures newLast == x && xs != [] && IsChain(next, xs[1..]) && IsChain(y, ys)
    ensures newHead == (out + [x])[0] && Linked(out + [x])
  {
    newHead := Store(head, last, x, out, xs, y, ys);
    Appended(out, x, xs, y, ys);
    newLast := x;
    next := x.next;
  }

  /** Once the last output node links to x, the output with x is linked and
      the chain x heads continues at x.next. */
  lemma Appended(out: seq<Node>, x: Node, xs: seq<Node>, y: Node?, ys: seq<Node>)
    requires IsChain(x, xs) && IsChain(y, ys)
    requires out != [] ==> Linked(out) && out[|out| - 1].next == x
    ensures xs != [] && IsChain(x.next, xs[1..]) && IsChain(y, ys) && Linked(out + [x])
  {
    ChainRest(x, xs);
    if out != [] {
      LinkedSnoc(out, x);
    }
  }

  /** The last node written is neither earlier in the output nor among the
      nodes still to merge. */
  lemma LastApart(ls: seq<Node>, rs: seq<Node>, m: seq<Node>, out: seq<Node>, lrest: seq<Node>, rrest: seq<Node>)
    requires m == Merged(ls, rs) && Distinct(ls) && Distinct(rs) && multiset(ls) !! multiset(rs)
    requires m == out + Merged(lrest, rrest) && out != []
    ensures out[|out| - 1] !in out[..|out| - 1]
    ensures out[|out| - 1] !in lrest && out[|out| - 1] !in rrest
    ensures out[|out| - 1] in ls || out[|out| - 1] in rs
  {
    MergedDistinct(ls, rs);
    DistinctParts(out, Merged(lrest, rrest));
    MergedMembers(lrest, rrest);
    MergedMembers(ls, rs);
  }

  /** Moving the front of the rest to the end of the output keeps the whole. */
  lemma MoveFront(m: seq<Node>, out: seq<Node>, x: Node, rest: seq<Node>)
    requires m == out + ([x] + rest)
    ensures m == (out + [x]) + rest
  {
  }

  /** A linked list whose last node links to x stays linked with x appended. */
  lemma LinkedSnoc(p: seq<Node>, x: Node)
    requires p != [] && Linked(p) && p[|p| - 1].next == x
    ensures Linked(p + [x])
  {
  }
}
