/** What merge and mergeSort in queue.c compute, as functions of the node
    sequences they relink, and the facts q_sort relies on: the result is in
    ascending strcmp order and is a permutation of the input. */
module MergeSortSpec {
  import opened Text
  import opened Chain

  /** No text in s is strcmp-greater than a text after it. */
  predicate Ascending(s: seq<Text>)
  {
    forall i, j :: 0 <= i < j < |s| ==> !Less(s[j], s[i])
  }

  /** The list merge(left, right) builds. A left node is taken only when its
      text is strictly smaller than the right node's; on a tie the right node
      goes first. */
  function Merged(a: seq<Node>, b: seq<Node>): (r: seq<Node>)
    ensures |r| == |a| + |b|
    decreases |a| + |b|
  {
    if a == [] then b
    else if b == [] then a
    else if Less(a[0].value, b[0].value) then [a[0]] + Merged(a[1..], b)
    else [b[0]] + Merged(a, b[1..])
  }

  /** The list mergeSort(head) returns: the first ceil(n/2) nodes and the rest
      are sorted separately and merged. */
  function MergeSorted(ns: seq<Node>): (r: seq<Node>)
    ensures |r| == |ns|
    decreases |ns|
  {
    if |ns| <= 1 then ns
    else
      var h := (|ns| + 1) / 2;
      Merged(MergeSorted(ns[..h]), MergeSorted(ns[h..]))
  }

  /** Every node of ns holds a text at least v. */
  ghost predicate AllAtLeast(ns: seq<Node>, v: Text)
  {
    forall k :: 0 <= k < |ns| ==> !Less(ns[k].value, v)
  }

  /** Merging keeps every node, once each. */
  lemma {:induction false} MergedPermutation(a: seq<Node>, b: seq<Node>)
    ensures multiset(Merged(a, b)) == multiset(a) + multiset(b)
    decreases |a| + |b|
  {
    if a != [] && b != [] {
      var x, a', b' := MergedFront(a, b);
      MergedPermutation(a', b');
      MultisetCons(x, Merged(a', b'));
    }
  }

  /** One step of merge: the node it emits first and the two lists left. */
  lemma MergedFront(a: seq<Node>, b: seq<Node>) returns (x: Node, a': seq<Node>, b': seq<Node>)
    requires a != [] && b != []
    ensures Merged(a, b) == [x] + Merged(a', b')
    ensures multiset(a) + multiset(b) == multiset{x} + (multiset(a') + multiset(b'))
    ensures |a'| + |b'| < |a| + |b|
  {
    if Less(a[0].value, b[0].value) {
      MergedTakesLeft(a, b);
      x, a', b' := a[0], a[1..], b;
      MultisetCons(a[0], a[1..]);
      assert a == [a[0]] + a[1..];
    } else {
      MergedTakesRight(a, b);
      x, a', b' := b[0], a, b[1..];
      MultisetCons(b[0], b[1..]);
      assert b == [b[0]] + b[1..];
    }
  }

  /** merge's first branch: a strictly smaller left text goes first. */
  lemma MergedTakesLeft(a: seq<Node>, b: seq<Node>)
    requires a != [] && b != [] && Less(a[0].value, b[0].value)
    ensures Merged(a, b) == [a[0]] + Merged(a[1..], b)
  {
  }

  /** merge's second branch: otherwise, ties included, the right node goes
      first. */
  lemma MergedTakesRight(a: seq<Node>, b: seq<Node>)
    requires a != [] && b != [] && !Less(a[0].value, b[0].value)
    ensures Merged(a, b) == [b[0]] + Merged(a, b[1..])
  {
  }

  /** The nodes of a merge are the nodes of its two inputs. */
  lemma MergedMembers(a: seq<Node>, b: seq<Node>)
    ensures forall x :: x in Merged(a, b) <==> x in a || x in b
  {
    MergedPermutation(a, b);
    forall x
      ensures x in Merged(a, b) <==> x in a || x in b
    {
      assert x in Merged(a, b) <==> x in multiset(Merged(a, b));
      assert x in a <==> x in multiset(a);
      assert x in b <==> x in multiset(b);
    }
  }

  /** mergeSort returns the very nodes it was given. */
  lemma MergeSortedMember(ns: seq<Node>, x: Node)
    ensures x in MergeSorted(ns) <==> x in ns
  {
    MergeSortedPermutation(ns);
    assert x in MergeSorted(ns) <==> x in multiset(MergeSorted(ns));
    assert x in ns <==> x in multiset(ns);
  }

  /** Putting x in front adds one x to the multiset. */
  lemma MultisetCons(x: Node, t: seq<Node>)
    ensures multiset([x] + t) == multiset{x} + multiset(t)
  {
  }

  /** Merging two disjoint lists without repeated nodes yields no repeated node. */
  lemma {:induction false} MergedDistinct(a: seq<Node>, b: seq<Node>)
    requires Distinct(a) && Distinct(b) && multiset(a) !! multiset(b)
    ensures Distinct(Merged(a, b))
    decreases |a| + |b|
  {
    if a != [] && b != [] {
      if Less(a[0].value, b[0].value) {
        assert a == [a[0]] + a[1..];
        MergedDistinct(a[1..], b);
        MergedPermutation(a[1..], b);
        assert Merged(a, b)[1..] == Merged(a[1..], b);
        assert a[0] !in multiset(Merged(a[1..], b)) by {
          assert a[0] in multiset(a);
        }
      } else {
        assert b == [b[0]] + b[1..];
        MergedDistinct(a, b[1..]);
        MergedPermutation(a, b[1..]);
        assert Merged(a, b)[1..] == Merged(a, b[1..]);
        assert b[0] !in multiset(Merged(a, b[1..])) by {
          assert b[0] in multiset(b);
        }
      }
    }
  }

  /** The tie-break: when the two front texts are equal, the right node is
      emitted first, so equal texts from the right half overtake the left. */
  lemma MergedTieTakesRight(a: seq<Node>, b: seq<Node>)
    requires a != [] && b != [] && a[0].value == b[0].value
    ensures Merged(a, b) == [b[0]] + Merged(a, b[1..])
  {
    LessIrreflexive(a[0].value);
    MergedTakesRight(a, b);
  }

  /** Sorting two nodes with equal texts swaps them: the sort is not stable. */
  lemma EqualPairSwapped(x: Node, y: Node)
    requires x.value == y.value
    ensures MergeSorted([x, y]) == [y, x]
  {
    assert [x, y][..1] == [x] && [x, y][1..] == [y];
    MergedTieTakesRight([x], [y]);
  }

  /** A bound that holds for both inputs of merge holds for its result. */
  lemma {:induction false} MergedAllAtLeast(a: seq<Node>, b: seq<Node>, v: Text)
    requires AllAtLeast(a, v) && AllAtLeast(b, v)
    ensures AllAtLeast(Merged(a, b), v)
    decreases |a| + |b|
  {
    if a != [] && b != [] {
      if Less(a[0].value, b[0].value) {
        MergedAllAtLeast(a[1..], b, v);
      } else {
        MergedAllAtLeast(a, b[1..], v);
      }
    }
  }

  /** In an ascending list the first text is a lower bound for all of them. */
  lemma FirstIsLeast(ns: seq<Node>)
    requires ns != [] && Ascending(Values(ns))
    ensures AllAtLeast(ns, ns[0].value)
  {
    forall k | 0 <= k < |ns|
      ensures !Less(ns[k].value, ns[0].value)
    {
      if k == 0 {
        LessIrreflexive(ns[0].value);
      } else {
        assert Values(ns)[0] == ns[0].value && Values(ns)[k] == ns[k].value;
      }
    }
  }

  /** Dropping the first node keeps the texts ascending. */
  lemma AscendingRest(ns: seq<Node>)
    requires ns != [] && Ascending(Values(ns))
    ensures Ascending(Values(ns[1..]))
  {
    assert Values(ns[1..]) == Values(ns)[1..];
    AscendingTail(Values(ns));
  }

  /** A lower bound stays one when it is lowered. */
  lemma AllAtLeastLower(ns: seq<Node>, v: Text, w: Text)
    requires AllAtLeast(ns, v) && !Less(v, w)
    ensures AllAtLeast(ns, w)
  {
    forall k | 0 <= k < |ns|
      ensures !Less(ns[k].value, w)
    {
      AtMostTransitive(w, v, ns[k].value);
    }
  }

  /** A node no greater than an ascending list can go in front of it. */
  lemma AscendingCons(x: Node, t: seq<Node>)
    requires AllAtLeast(t, x.value) && Ascending(Values(t))
    ensures Ascending(Values([x] + t))
  {
    ValuesAppend([x], t);
  }

  /** Merging two ascending lists gives an ascending list. */
  lemma {:induction false} MergedAscending(a: seq<Node>, b: seq<Node>)
    requires Ascending(Values(a)) && Ascending(Values(b))
    ensures Ascending(Values(Merged(a, b)))
    decreases |a| + |b|
  {
    if a != [] && b != [] {
      FirstIsLeast(a);
      FirstIsLeast(b);
      if Less(a[0].value, b[0].value) {
        assert !Less(b[0].value, a[0].value) by {
          LessIrreflexive(a[0].value);
          if Less(b[0].value, a[0].value) {
            LessTransitive(a[0].value, b[0].value, a[0].value);
          }
        }
        AllAtLeastLower(b, b[0].value, a[0].value);
        AscendingRest(a);
        MergedAscending(a[1..], b);
        MergedAllAtLeast(a[1..], b, a[0].value);
        AscendingCons(a[0], Merged(a[1..], b));
      } else {
        AllAtLeastLower(a, a[0].value, b[0].value);
        AscendingRest(b);
        MergedAscending(a, b[1..]);
        MergedAllAtLeast(a, b[1..], b[0].value);
        AscendingCons(b[0], Merged(a, b[1..]));
      }
    }
  }

  /** mergeSort keeps every node, once each. */
  lemma {:induction false} MergeSortedPermutation(ns: seq<Node>)
    ensures multiset(MergeSorted(ns)) == multiset(ns)
    decreases |ns|
  {
    if |ns| > 1 {
      var left, right := MergeSortedSplit(ns);
      MergeSortedPermutation(left);
      MergeSortedPermutation(right);
      MergedPermutation(MergeSorted(left), MergeSorted(right));
    }
  }

  /** The two halves mergeSort sorts, which together hold every node. */
  lemma MergeSortedSplit(ns: seq<Node>) returns (left: seq<Node>, right: seq<Node>)
    requires |ns| > 1
    ensures |left| < |ns| && |right| < |ns|
    ensures MergeSorted(ns) == Merged(MergeSorted(left), MergeSorted(right))
    ensures multiset(ns) == multiset(left) + multiset(right)
  {
    var h := (|ns| + 1) / 2;
    left, right := ns[..h], ns[h..];
    assert ns == left + right;
  }

  /** mergeSort leaves its list in ascending strcmp order. */
  lemma {:induction false} MergeSortedAscending(ns: seq<Node>)
    ensures Ascending(Values(MergeSorted(ns)))
    decreases |ns|
  {
    if |ns| > 1 {
      var h := (|ns| + 1) / 2;
      MergeSortedAscending(ns[..h]);
      MergeSortedAscending(ns[h..]);
      MergedAscending(MergeSorted(ns[..h]), MergeSorted(ns[h..]));
    }
  }

  /** The texts after mergeSort are the texts before it, rearranged. */
  lemma MergeSortedValues(ns: seq<Node>)
    ensures multiset(Values(MergeSorted(ns))) == multiset(Values(ns))
  {
    MergeSortedPermutation(ns);
    ValuesMultiset(MergeSorted(ns), ns);
  }

  /** There is one ascending arrangement of a collection of texts. */
  lemma {:induction false} AscendingUnique(s: seq<Text>, t: seq<Text>)
    requires Ascending(s) && Ascending(t) && multiset(s) == multiset(t)
    ensures s == t
    decreases |s|
  {
    assert |s| == |multiset(s)| == |multiset(t)| == |t|;
    if s != [] {
      AscendingFirst(s, t);
      MultisetTail(s);
      MultisetTail(t);
      AscendingTail(s);
      AscendingTail(t);
      AscendingUnique(s[1..], t[1..]);
      assert s == [s[0]] + s[1..] && t == [t[0]] + t[1..];
    }
  }

  /** Two ascending arrangements of the same texts start with the same text. */
  lemma AscendingFirst(s: seq<Text>, t: seq<Text>)
    requires s != [] && t != []
    requires Ascending(s) && Ascending(t) && multiset(s) == multiset(t)
    ensures s[0] == t[0]
  {
    assert s[0] in multiset(t);
    var j :| 0 <= j < |t| && t[j] == s[0];
    assert t[0] in multiset(s);
    var i :| 0 <= i < |s| && s[i] == t[0];
    LessIrreflexive(s[0]);
    LessIrreflexive(t[0]);
    assert !Less(s[0], t[0]) && !Less(t[0], s[0]);
    LessTotal(s[0], t[0]);
  }

  /** Dropping the first text removes one copy of it from the multiset. */
  lemma MultisetTail(s: seq<Text>)
    requires s != []
    ensures multiset(s[1..]) == multiset(s) - multiset{s[0]}
  {
    assert s == [s[0]] + s[1..];
  }

  /** Dropping the first text keeps a sequence ascending. */
  lemma AscendingTail(s: seq<Text>)
    requires s != [] && Ascending(s)
    ensures Ascending(s[1..])
  {
    forall i, j | 0 <= i < j < |s| - 1
      ensures !Less(s[1..][j], s[1..][i])
    {
      assert s[1..][j] == s[j + 1] && s[1..][i] == s[i + 1];
    }
  }

  /** On a list already in ascending order, mergeSort leaves the texts as they
      were (equal texts may trade nodes, which no reader of the texts sees). */
  lemma MergeSortedKeepsAscending(ns: seq<Node>)
    requires Ascending(Values(ns))
    ensures Values(MergeSorted(ns)) == Values(ns)
  {
    MergeSortedAscending(ns);
    MergeSortedValues(ns);
    AscendingUnique(Values(MergeSorted(ns)), Values(ns));
  }

  /** Sorting twice gives the same texts as sorting once. */
  lemma MergeSortedTwice(ns: seq<Node>)
    ensures Values(MergeSorted(MergeSorted(ns))) == Values(MergeSorted(ns))
  {
    MergeSortedAscending(ns);
    MergeSortedKeepsAscending(MergeSorted(ns));
  }
}
