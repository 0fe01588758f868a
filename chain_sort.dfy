/** The static helpers of `ll_sort` in linkedlist.c. They work on a
    NULL-terminated chain of `next` links only: `merge_sort_get_middle`,
    `merge_sort_merge` and the recursive `merge_sort`. */
module ChainSort {
  import opened Nodes
  import opened SortSpec
  import opened MergeLoop

  /** `merge_sort_get_middle`: a slow pointer moves one node for every two
      that a fast pointer moves, and stops at the middle of the chain. */
  method GetMiddle(head: Node?, ghost ns: seq<Node>) returns (middle: Node?)
    requires Chain(head, ns)
    ensures ns == [] ==> middle == null
    ensures ns != [] ==> middle == ns[(|ns| - 1) / 2]
  {
    if head == null {
      return head;
    }
    var fast, slow := head, head;
    ghost var s := 0;
    while fast.next != null && fast.next.next != null
      invariant 2 * s < |ns|
      invariant slow == ns[s] && fast == ns[2 * s]
      invariant s <= (|ns| - 1) / 2
      decreases |ns| - 2 * s
    {
      assert fast.next == ns[2 * s + 1];
      assert fast.next.next == ns[2 * s + 2];
      slow := slow.next;
      fast := fast.next.next;
      s := s + 1;
    }
    ChainNext(head, ns, 2 * s);
    if fast.next != null {
      ChainNext(head, ns, 2 * s + 1);
    }
    return slow;
  }

  /** One iteration of the loop of `merge_sort_merge`: append the smaller
      of `a` and `b` behind `current` and move past it. */
  method MergeStep(ghost xs: seq<Node>, ghost ys: seq<Node>, ghost merged: seq<Node>,
                   ghost succ: map<Node, Node?>, ghost prev: map<Node, Node?>,
                   ghost dummy: Node, ghost i: int, ghost j: int, ghost n: int, current: Node, a: Node?, b: Node?,
                   cmp: Comparator)
    returns (a': Node?, b': Node?, current': Node, ghost succ': map<Node, Node?>,
             ghost i': int, ghost j': int, ghost n': int)
    requires Frozen(xs, ys, merged, dummy)
    requires Matches(succ) && MergeState(xs, ys, merged, succ, dummy, i, j, n, current, a, b, cmp)
    requires a != null && b != null && Backs(prev)
    modifies current
    ensures Matches(succ') && MergeState(xs, ys, merged, succ', dummy, i', j', n', current', a', b', cmp)
    ensures Backs(prev)
    ensures i' + j' == i + j + 1 && i <= i' && j <= j'
  {
    a', b', i', j' := a, b, i, j;
    if cmp(a.data, b.data) <= 0 {
      TakeLeft(xs, ys, merged, succ, dummy, i, j, n, current, a, b, cmp);
      succ' := Link(current, a, succ);
      a' := a.next;
      i' := i + 1;
    } else {
      TakeRight(xs, ys, merged, succ, dummy, i, j, n, current, a, b, cmp);
      succ' := Link(current, b, succ);
      b' := b.next;
      j' := j + 1;
    }
    current' := current.next;
    n' := n + 1;
  }

  /** `merge_sort_merge`: links the nodes of two chains into one, behind a
      placeholder node, taking from `a` whenever `cmp(a, b) <= 0`. Only
      `next` links are written, so `previous` links are left stale. */
  method MergeChains(a0: Node?, b0: Node?, ghost xs: seq<Node>, ghost ys: seq<Node>, cmp: Comparator,
                     ghost prev: map<Node, Node?>)
    returns (r: Node?, ghost rs: seq<Node>)
    requires Chain(a0, xs) && Chain(b0, ys)
    requires forall x :: x in xs ==> x !in ys
    requires Backs(prev)
    modifies xs, ys
    ensures rs == Merge(xs, ys, cmp) && Chain(r, rs)
    ensures Backs(prev)
  {
    if a0 == null && b0 == null {
      return null, [];
    }
    var a, b := a0, b0;
    ghost var i, j, n := 0, 0, 0;
    var dummy := new Node(Null);
    var current: Node := dummy;
    ghost var succ: map<Node, Node?> := map x | x in xs + ys :: x.next;
    ghost var merged := Merge(xs, ys, cmp);
    MergeStart(a0, b0, xs, ys, succ, dummy, cmp);
    while a != null && b != null
      invariant Matches(succ)
      invariant MergeState(xs, ys, merged, succ, dummy, i, j, n, current, a, b, cmp)
      invariant Backs(prev)
      decreases |xs| - i + |ys| - j
    {
      a, b, current, succ, i, j, n := MergeStep(xs, ys, merged, succ, prev, dummy, i, j, n, current, a, b, cmp);
    }
    ghost var succ0 := succ;
    succ := Link(current, if a == null then b else a, succ);
    assert Backs(prev);
    MergeFinish(xs, ys, merged, succ0, dummy, i, j, n, current, a, b, cmp, succ);
    r := dummy.next;
    rs := merged;
    MatchesChain(succ, merged);
  }

  /** The sorted halves of a sequence of distinct nodes consist of nodes of
      their own half, so they share no node, and each is found in `ns`. */
  lemma SortedHalvesApart(ns: seq<Node>, m: nat, cmp: Comparator)
    requires Distinct(ns) && m <= |ns|
    ensures forall x :: x in MergeSort(ns[..m], cmp) ==> x !in ns[m..] && x !in MergeSort(ns[m..], cmp)
    ensures forall k :: 0 <= k < |MergeSort(ns[..m], cmp)| ==>
      exists p :: 0 <= p < |ns| && ns[p] == MergeSort(ns[..m], cmp)[k]
    ensures forall k :: 0 <= k < |MergeSort(ns[m..], cmp)| ==>
      exists p :: 0 <= p < |ns| && ns[p] == MergeSort(ns[m..], cmp)[k]
  {
    var left, right := MergeSort(ns[..m], cmp), MergeSort(ns[m..], cmp);
    DistinctSplit(ns, m);
    MergeSortPermutes(ns[..m], cmp);
    MergeSortPermutes(ns[m..], cmp);
    forall x | x in left
      ensures x !in ns[m..] && x !in right
    {
      assert x in multiset(ns[..m]);
      assert x !in multiset(ns[m..]);
      assert x !in multiset(right);
    }
    assert ns[0..m] == ns[..m] && ns[m..|ns|] == ns[m..];
    SliceMembers(left, ns, 0, m);
    SliceMembers(right, ns, m, |ns|);
  }

  /** Every node of a permutation of `ns[lo..hi]` is found in `ns`. */
  lemma SliceMembers(s: seq<Node>, ns: seq<Node>, lo: nat, hi: nat)
    requires lo <= hi <= |ns| && multiset(s) == multiset(ns[lo..hi])
    ensures forall k :: 0 <= k < |s| ==> exists p :: 0 <= p < |ns| && ns[p] == s[k]
  {
    forall k | 0 <= k < |s|
      ensures exists p :: 0 <= p < |ns| && ns[p] == s[k]
    {
      assert s[k] in multiset(s);
      assert s[k] in multiset(ns[lo..hi]);
      var q :| 0 <= q < hi - lo && ns[lo..hi][q] == s[k];
      assert 0 <= lo + q < |ns| && ns[lo + q] == s[k];
    }
  }

  /** `merge_sort`: split the chain after its middle node (by cutting that
      node's `next` link), sort both halves and merge them. */
  method MergeSortChain(head: Node?, ghost ns: seq<Node>, cmp: Comparator, ghost prev: map<Node, Node?>)
    returns (r: Node?, ghost rs: seq<Node>)
    requires Chain(head, ns) && Backs(prev)
    modifies set x | x in ns
    ensures rs == MergeSort(ns, cmp) && Chain(r, rs)
    ensures Backs(prev)
    decreases |ns|
  {
    if head == null || head.next == null {
      if head != null {
        ChainNext(head, ns, 0);
      }
      return head, ns;
    }
    var middle := GetMiddle(head, ns);
    ghost var m := FirstHalf(|ns|);
    assert ns[m - 1].next == ns[m];
    var secondHalf := middle.next;
    middle.next := null;
    ChainCut(head, ns, m);
    ghost var lefts, rights := ns[..m], ns[m..];
    SortedHalvesApart(ns, m, cmp);
    // Each recursive call rewrites only the links of its own half; the
    // links of the other half, recorded before the call, survive it.
    ghost var keep := ChainSnapshot(secondHalf, rights);
    assert Backs(prev);
    var left, ls := MergeSortChain(head, lefts, cmp, prev);
    assert Matches(keep) && Backs(prev);
    MatchesChain(keep, rights);
    keep := ChainSnapshot(left, ls);
    var right, rs' := MergeSortChain(secondHalf, rights, cmp, prev);
    assert Matches(keep) && Backs(prev);
    MatchesChain(keep, ls);
    r, rs := MergeChains(left, right, ls, rs', cmp, prev);
  }
}
