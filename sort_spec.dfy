/** What `ll_sort` computes, stated on sequences of nodes: the merge of
    `merge_sort_merge`, the recursion of `merge_sort` with the split that
    `merge_sort_get_middle` produces, and the proofs that the result is a
    sorted, stable permutation of its input. */
module SortSpec {
  import opened Nodes

  /** The C comparator `int (*cmp)(void *a, void *b)`: only its sign matters. */
  type Comparator = (Payload, Payload) -> int

  /** The comparator's sign defines a total preorder: any two payloads are
      comparable, and "compares at most" is transitive. */
  ghost predicate TotalPreorder(cmp: Comparator) {
    && (forall x, y :: cmp(x, y) <= 0 || cmp(y, x) <= 0)
    && (forall x, y, z :: cmp(x, y) <= 0 && cmp(y, z) <= 0 ==> cmp(x, z) <= 0)
  }

  /** Non-decreasing under `cmp`: smallest items first. */
  ghost predicate Sorted(s: seq<Node>, cmp: Comparator) {
    forall i, j :: 0 <= i < j < |s| ==> cmp(s[i].data, s[j].data) <= 0
  }

  /** Nodes whose payloads compare equal appear in `s` in the order they had
      in `orig`. */
  ghost predicate Stable(orig: seq<Node>, s: seq<Node>, cmp: Comparator) {
    forall i, j ::
      0 <= i < j < |s| && cmp(s[i].data, s[j].data) <= 0 && cmp(s[j].data, s[i].data) <= 0 ==>
        IndexOf(orig, s[i]) < IndexOf(orig, s[j])
  }

  /** `x` may stand before `y` in a sorted and stable arrangement of `orig`. */
  ghost predicate Precedes(orig: seq<Node>, cmp: Comparator, x: Node, y: Node) {
    && cmp(x.data, y.data) <= 0
    && (cmp(y.data, x.data) <= 0 ==> IndexOf(orig, x) < IndexOf(orig, y))
  }

  /** The merge loop of `merge_sort_merge`: take the head of `a` whenever
      `cmp(a, b) <= 0`, otherwise the head of `b`; append what remains. */
  function Merge(a: seq<Node>, b: seq<Node>, cmp: Comparator): (r: seq<Node>)
    ensures |r| == |a| + |b|
    decreases |a| + |b|
  {
    if a == [] then b
    else if b == [] then a
    else if cmp(a[0].data, b[0].data) <= 0 then [a[0]] + Merge(a[1..], b, cmp)
    else [b[0]] + Merge(a, b[1..], cmp)
  }

  lemma MultisetSplit(s: seq<Node>, m: nat)
    requires m <= |s|
    ensures multiset(s) == multiset(s[..m]) + multiset(s[m..])
  {
    assert s == s[..m] + s[m..];
  }

  /** The merge neither loses nor duplicates a node. */
  lemma {:induction false} MergePermutes(a: seq<Node>, b: seq<Node>, cmp: Comparator)
    ensures multiset(Merge(a, b, cmp)) == multiset(a) + multiset(b)
    decreases |a| + |b|
  {
    if a != [] && b != [] {
      if cmp(a[0].data, b[0].data) <= 0 {
        var r := Merge(a[1..], b, cmp);
        assert Merge(a, b, cmp) == [a[0]] + r;
        MergePermutes(a[1..], b, cmp);
        MultisetSplit(a, 1);
        assert a[..1] == [a[0]];
      } else {
        var r := Merge(a, b[1..], cmp);
        assert Merge(a, b, cmp) == [b[0]] + r;
        MergePermutes(a, b[1..], cmp);
        MultisetSplit(b, 1);
        assert b[..1] == [b[0]];
      }
    }
  }

  lemma ConsSorted(h: Node, r: seq<Node>, cmp: Comparator)
    requires Sorted(r, cmp) && forall y :: y in r ==> cmp(h.data, y.data) <= 0
    ensures Sorted([h] + r, cmp)
  {
    var s := [h] + r;
    forall i, j | 0 <= i < j < |s|
      ensures cmp(s[i].data, s[j].data) <= 0
    {
      assert s[j] == r[j - 1];
      if i > 0 {
        assert s[i] == r[i - 1];
      }
    }
  }

  /** The rest of a sorted sequence is sorted and bounded below by its head. */
  lemma SortedTail(s: seq<Node>, cmp: Comparator)
    requires Sorted(s, cmp) && s != []
    ensures Sorted(s[1..], cmp) && forall y :: y in s[1..] ==> cmp(s[0].data, y.data) <= 0
  {
    forall i, j | 0 <= i < j < |s| - 1
      ensures cmp(s[1..][i].data, s[1..][j].data) <= 0
    {
      assert s[1..][i] == s[i + 1] && s[1..][j] == s[j + 1];
    }
    forall y | y in s[1..]
      ensures cmp(s[0].data, y.data) <= 0
    {
      var i :| 0 <= i < |s| - 1 && s[1..][i] == y;
      assert y == s[i + 1];
    }
  }

  /** A payload at most the head of a sorted sequence is at most all of it. */
  lemma SortedLowerBound(h: Node, s: seq<Node>, cmp: Comparator)
    requires TotalPreorder(cmp) && Sorted(s, cmp) && s != [] && cmp(h.data, s[0].data) <= 0
    ensures forall y :: y in s ==> cmp(h.data, y.data) <= 0
  {
    forall y | y in s
      ensures cmp(h.data, y.data) <= 0
    {
      var j :| 0 <= j < |s| && s[j] == y;
      if j > 0 {
        assert cmp(s[0].data, s[j].data) <= 0;
      }
    }
  }

  /** A lower bound of both inputs of the merge is one of its result. */
  lemma MergeLowerBound(h: Node, a: seq<Node>, b: seq<Node>, cmp: Comparator)
    requires forall y :: y in a ==> cmp(h.data, y.data) <= 0
    requires forall y :: y in b ==> cmp(h.data, y.data) <= 0
    ensures forall y :: y in Merge(a, b, cmp) ==> cmp(h.data, y.data) <= 0
  {
    MergePermutes(a, b, cmp);
    forall y | y in Merge(a, b, cmp)
      ensures cmp(h.data, y.data) <= 0
    {
      assert y in multiset(Merge(a, b, cmp));
    }
  }

  /** `merge_sort_merge` of two sorted chains is sorted. */
  lemma {:induction false} MergeSorted(a: seq<Node>, b: seq<Node>, cmp: Comparator)
    requires TotalPreorder(cmp) && Sorted(a, cmp) && Sorted(b, cmp)
    ensures Sorted(Merge(a, b, cmp), cmp)
    decreases |a| + |b|
  {
    if a != [] && b != [] {
      if cmp(a[0].data, b[0].data) <= 0 {
        SortedTail(a, cmp);
        SortedLowerBound(a[0], b, cmp);
        MergeSorted(a[1..], b, cmp);
        MergeLowerBound(a[0], a[1..], b, cmp);
        ConsSorted(a[0], Merge(a[1..], b, cmp), cmp);
      } else {
        SortedTail(b, cmp);
        SortedLowerBound(b[0], a, cmp);
        MergeSorted(a, b[1..], cmp);
        MergeLowerBound(b[0], a, b[1..], cmp);
        ConsSorted(b[0], Merge(a, b[1..], cmp), cmp);
      }
    }
  }

  /** The number of nodes `merge_sort` keeps in the first half of a chain of
      `n` nodes: up to and including the middle node at index `(n - 1) / 2`.
      For two or more nodes both halves are non-empty, so the recursion of
      `merge_sort` terminates. */
  function FirstHalf(n: nat): (r: nat)
    ensures n >= 2 ==> 1 <= r < n
  {
    (n - 1) / 2 + 1
  }

  /** The recursion of `merge_sort`: chains of zero or one node are left as
      they are; longer ones are split after the middle node, both halves
      sorted and the results merged. */
  function MergeSort(s: seq<Node>, cmp: Comparator): (r: seq<Node>)
    decreases |s|
  {
    if |s| <= 1 then s
    else
      var m := FirstHalf(|s|);
      Merge(MergeSort(s[..m], cmp), MergeSort(s[m..], cmp), cmp)
  }

  /** Sorting neither loses nor duplicates a node. */
  lemma {:induction false} MergeSortPermutes(s: seq<Node>, cmp: Comparator)
    ensures multiset(MergeSort(s, cmp)) == multiset(s)
    decreases |s|
  {
    if |s| > 1 {
      var m := FirstHalf(|s|);
      var left, right := MergeSort(s[..m], cmp), MergeSort(s[m..], cmp);
      assert MergeSort(s, cmp) == Merge(left, right, cmp);
      MergeSortPermutes(s[..m], cmp);
      MergeSortPermutes(s[m..], cmp);
      MergePermutes(left, right, cmp);
      MultisetSplit(s, m);
    }
  }

  /** Merging two disjoint chains of distinct nodes gives distinct nodes. */
  lemma {:induction false} MergeDistinct(a: seq<Node>, b: seq<Node>, cmp: Comparator)
    requires Distinct(a) && Distinct(b)
    requires forall x :: x in a ==> x !in b
    ensures Distinct(Merge(a, b, cmp))
    decreases |a| + |b|
  {
    if a == [] || b == [] {
    } else if cmp(a[0].data, b[0].data) <= 0 {
      DistinctTail(a);
      MergeDistinct(a[1..], b, cmp);
      MergePermutes(a[1..], b, cmp);
      assert a[0] !in a[1..] && a[0] !in b by { DistinctHead(a); assert a[0] in a; }
      assert a[0] !in multiset(Merge(a[1..], b, cmp));
      DistinctCons(a[0], Merge(a[1..], b, cmp));
    } else {
      DistinctTail(b);
      MergeDistinct(a, b[1..], cmp);
      MergePermutes(a, b[1..], cmp);
      assert b[0] !in a && b[0] !in b[1..] by { DistinctHead(b); assert b[0] in b; }
      assert b[0] !in multiset(Merge(a, b[1..], cmp));
      DistinctCons(b[0], Merge(a, b[1..], cmp));
    }
  }

  /** Sorting distinct nodes gives distinct nodes. */
  lemma {:induction false} MergeSortDistinct(s: seq<Node>, cmp: Comparator)
    requires Distinct(s)
    ensures Distinct(MergeSort(s, cmp))
    decreases |s|
  {
    if |s| > 1 {
      var m := FirstHalf(|s|);
      DistinctSplit(s, m);
      MergeSortDistinct(s[..m], cmp);
      MergeSortDistinct(s[m..], cmp);
      MergeSortPermutes(s[..m], cmp);
      MergeSortPermutes(s[m..], cmp);
      var l, r := MergeSort(s[..m], cmp), MergeSort(s[m..], cmp);
      forall x | x in l
        ensures x !in r
      {
        assert x in multiset(s[..m]);
        assert x !in multiset(s[m..]);
        assert x !in multiset(r);
      }
      MergeDistinct(l, r, cmp);
    }
  }

  lemma PayloadsSplit(s: seq<Node>, m: nat)
    requires m <= |s|
    ensures multiset(Payloads(s)) == multiset(Payloads(s[..m])) + multiset(Payloads(s[m..]))
  {
    PayloadsAppend(s[..m], s[m..]);
    assert s[..m] + s[m..] == s;
  }

  lemma {:induction false} MergePayloads(a: seq<Node>, b: seq<Node>, cmp: Comparator)
    ensures multiset(Payloads(Merge(a, b, cmp))) == multiset(Payloads(a)) + multiset(Payloads(b))
    decreases |a| + |b|
  {
    if a == [] || b == [] {
    } else if cmp(a[0].data, b[0].data) <= 0 {
      MergePayloads(a[1..], b, cmp);
      PayloadsAppend([a[0]], a[1..]);
      PayloadsAppend([a[0]], Merge(a[1..], b, cmp));
      assert [a[0]] + a[1..] == a;
    } else {
      MergePayloads(a, b[1..], cmp);
      PayloadsAppend([b[0]], b[1..]);
      PayloadsAppend([b[0]], Merge(a, b[1..], cmp));
      assert [b[0]] + b[1..] == b;
    }
  }

  /** Sorting moves nodes, never payloads: the payloads after the sort are a
      permutation of those before. */
  lemma {:induction false} MergeSortPayloads(s: seq<Node>, cmp: Comparator)
    ensures multiset(Payloads(MergeSort(s, cmp))) == multiset(Payloads(s))
    decreases |s|
  {
    if |s| > 1 {
      var m := FirstHalf(|s|);
      var left, right := MergeSort(s[..m], cmp), MergeSort(s[m..], cmp);
      assert MergeSort(s, cmp) == Merge(left, right, cmp);
      MergeSortPayloads(s[..m], cmp);
      MergeSortPayloads(s[m..], cmp);
      MergePayloads(left, right, cmp);
      PayloadsSplit(s, m);
    }
  }

  /** A node that may precede every node of a sorted, stable `r` may be put
      in front of it. */
  lemma ConsSortedStable(orig: seq<Node>, h: Node, r: seq<Node>, cmp: Comparator)
    requires Sorted(r, cmp) && Stable(orig, r, cmp)
    requires forall y :: y in r ==> Precedes(orig, cmp, h, y)
    ensures Sorted([h] + r, cmp) && Stable(orig, [h] + r, cmp)
  {
    var s := [h] + r;
    forall i, j | 0 <= i < j < |s|
      ensures Precedes(orig, cmp, s[i], s[j])
    {
      if i == 0 {
        assert s[j] == r[j - 1] && s[j] in r;
      } else {
        assert s[i] == r[i - 1] && s[j] == r[j - 1];
      }
    }
  }

  /** The first node of a sorted, stable sequence may precede the rest. */
  lemma HeadPrecedesTail(orig: seq<Node>, s: seq<Node>, cmp: Comparator)
    requires s != [] && Sorted(s, cmp) && Stable(orig, s, cmp)
    ensures forall y :: y in s[1..] ==> Precedes(orig, cmp, s[0], y)
  {
    forall y | y in s[1..]
      ensures Precedes(orig, cmp, s[0], y)
    {
      var k :| 0 <= k < |s[1..]| && s[1..][k] == y;
      assert s[k + 1] == y;
    }
  }

  lemma TailSortedStable(orig: seq<Node>, s: seq<Node>, cmp: Comparator)
    requires s != [] && Sorted(s, cmp) && Stable(orig, s, cmp)
    ensures Sorted(s[1..], cmp) && Stable(orig, s[1..], cmp)
  {
    forall i, j | 0 <= i < j < |s[1..]|
      ensures s[1..][i] == s[i + 1] && s[1..][j] == s[j + 1]
    {
    }
  }

  /** The head of `a` is taken on a tie with the head of `b`: it may precede
      all of `b`, because all of `a` came before all of `b`. */
  lemma LeftHeadPrecedes(orig: seq<Node>, h: Node, b: seq<Node>, cmp: Comparator)
    requires TotalPreorder(cmp)
    requires b != [] && Sorted(b, cmp) && cmp(h.data, b[0].data) <= 0
    requires forall y :: y in b ==> IndexOf(orig, h) < IndexOf(orig, y)
    ensures forall y :: y in b ==> Precedes(orig, cmp, h, y)
  {
    forall y | y in b
      ensures Precedes(orig, cmp, h, y)
    {
      var k :| 0 <= k < |b| && b[k] == y;
      if k > 0 {
        assert cmp(b[0].data, b[k].data) <= 0;
      }
    }
  }

  /** The head of `b` is taken only when it compares strictly below the head
      of `a`, so it compares strictly below all of `a`. */
  lemma RightHeadPrecedes(orig: seq<Node>, h: Node, a: seq<Node>, cmp: Comparator)
    requires TotalPreorder(cmp)
    requires a != [] && Sorted(a, cmp) && !(cmp(a[0].data, h.data) <= 0)
    ensures forall y :: y in a ==> Precedes(orig, cmp, h, y)
  {
    forall y | y in a
      ensures Precedes(orig, cmp, h, y)
    {
      var k :| 0 <= k < |a| && a[k] == y;
      assert cmp(a[0].data, a[k].data) <= 0;
    }
  }

  /** One step of the merge that takes the head of `a`. */
  lemma MergeStepLeft(orig: seq<Node>, a: seq<Node>, b: seq<Node>, cmp: Comparator)
    requires TotalPreorder(cmp)
    requires a != [] && b != [] && cmp(a[0].data, b[0].data) <= 0
    requires Sorted(a, cmp) && Stable(orig, a, cmp) && Sorted(b, cmp)
    requires forall y :: y in b ==> IndexOf(orig, a[0]) < IndexOf(orig, y)
    requires Sorted(Merge(a[1..], b, cmp), cmp) && Stable(orig, Merge(a[1..], b, cmp), cmp)
    ensures Sorted(Merge(a, b, cmp), cmp) && Stable(orig, Merge(a, b, cmp), cmp)
  {
    var r := Merge(a[1..], b, cmp);
    MergePermutes(a[1..], b, cmp);
    HeadPrecedesTail(orig, a, cmp);
    LeftHeadPrecedes(orig, a[0], b, cmp);
    forall y | y in r
      ensures Precedes(orig, cmp, a[0], y)
    {
      assert y in multiset(r);
    }
    ConsSortedStable(orig, a[0], r, cmp);
  }

  /** One step of the merge that takes the head of `b`. */
  lemma MergeStepRight(orig: seq<Node>, a: seq<Node>, b: seq<Node>, cmp: Comparator)
    requires TotalPreorder(cmp)
    requires a != [] && b != [] && !(cmp(a[0].data, b[0].data) <= 0)
    requires Sorted(a, cmp) && Sorted(b, cmp) && Stable(orig, b, cmp)
    requires Sorted(Merge(a, b[1..], cmp), cmp) && Stable(orig, Merge(a, b[1..], cmp), cmp)
    ensures Sorted(Merge(a, b, cmp), cmp) && Stable(orig, Merge(a, b, cmp), cmp)
  {
    var r := Merge(a, b[1..], cmp);
    MergePermutes(a, b[1..], cmp);
    HeadPrecedesTail(orig, b, cmp);
    RightHeadPrecedes(orig, b[0], a, cmp);
    forall y | y in r
      ensures Precedes(orig, cmp, b[0], y)
    {
      assert y in multiset(r);
    }
    ConsSortedStable(orig, b[0], r, cmp);
  }

  /** The merge keeps sortedness and stability, provided every node of `a`
      came before every node of `b` in `orig` (the left-biased tie rule). */
  lemma {:induction false} MergeSortedStable(orig: seq<Node>, a: seq<Node>, b: seq<Node>, cmp: Comparator)
    requires TotalPreorder(cmp)
    requires Sorted(a, cmp) && Stable(orig, a, cmp)
    requires Sorted(b, cmp) && Stable(orig, b, cmp)
    requires forall x, y :: x in a && y in b ==> IndexOf(orig, x) < IndexOf(orig, y)
    ensures Sorted(Merge(a, b, cmp), cmp) && Stable(orig, Merge(a, b, cmp), cmp)
    decreases |a| + |b|
  {
    if a == [] || b == [] {
    } else if cmp(a[0].data, b[0].data) <= 0 {
      TailSortedStable(orig, a, cmp);
      assert forall x :: x in a[1..] ==> x in a;
      MergeSortedStable(orig, a[1..], b, cmp);
      MergeStepLeft(orig, a, b, cmp);
    } else {
      TailSortedStable(orig, b, cmp);
      assert forall y :: y in b[1..] ==> y in b;
      MergeSortedStable(orig, a, b[1..], cmp);
      MergeStepRight(orig, a, b, cmp);
    }
  }

  /** A sequence whose positions in `orig` increase: a segment of `orig`. */
  ghost predicate InOrder(orig: seq<Node>, s: seq<Node>) {
    forall i, j :: 0 <= i < j < |s| ==> IndexOf(orig, s[i]) < IndexOf(orig, s[j])
  }

  lemma InOrderSplit(orig: seq<Node>, s: seq<Node>, m: nat)
    requires InOrder(orig, s) && m <= |s|
    ensures InOrder(orig, s[..m]) && InOrder(orig, s[m..])
    ensures forall x, y :: x in s[..m] && y in s[m..] ==> IndexOf(orig, x) < IndexOf(orig, y)
  {
    forall i, j | 0 <= i < j < |s[m..]|
      ensures IndexOf(orig, s[m..][i]) < IndexOf(orig, s[m..][j])
    {
      assert s[m..][i] == s[m + i] && s[m..][j] == s[m + j];
    }
    forall x, y | x in s[..m] && y in s[m..]
      ensures IndexOf(orig, x) < IndexOf(orig, y)
    {
      var i :| 0 <= i < m && s[..m][i] == x;
      var j :| 0 <= j < |s| - m && s[m..][j] == y;
      assert s[i] == x && s[m + j] == y;
    }
  }

  lemma {:induction false} MergeSortSortedStable(orig: seq<Node>, s: seq<Node>, cmp: Comparator)
    requires TotalPreorder(cmp)
    requires InOrder(orig, s)
    ensures Sorted(MergeSort(s, cmp), cmp) && Stable(orig, MergeSort(s, cmp), cmp)
    decreases |s|
  {
    if |s| > 1 {
      var m := FirstHalf(|s|);
      var left, right := MergeSort(s[..m], cmp), MergeSort(s[m..], cmp);
      InOrderSplit(orig, s, m);
      MergeSortPermutes(s[..m], cmp);
      MergeSortPermutes(s[m..], cmp);
      MergeSortSortedStable(orig, s[..m], cmp);
      MergeSortSortedStable(orig, s[m..], cmp);
      forall x, y | x in left && y in right
        ensures IndexOf(orig, x) < IndexOf(orig, y)
      {
        assert x in multiset(left) && y in multiset(right);
      }
      MergeSortedStable(orig, left, right, cmp);
    }
  }

  /** `ll_sort`'s promise (linkedlist.h): for a comparator that is a total
      preorder, the result is a permutation of the list, smallest items first,
      and items that compare equal keep their relative order. */
  lemma MergeSortCorrect(s: seq<Node>, cmp: Comparator)
    requires Distinct(s)
    ensures multiset(MergeSort(s, cmp)) == multiset(s) && Distinct(MergeSort(s, cmp))
    ensures multiset(Payloads(MergeSort(s, cmp))) == multiset(Payloads(s))
    ensures TotalPreorder(cmp) ==> Sorted(MergeSort(s, cmp), cmp) && Stable(s, MergeSort(s, cmp), cmp)
  {
    MergeSortPermutes(s, cmp);
    MergeSortDistinct(s, cmp);
    MergeSortPayloads(s, cmp);
    if TotalPreorder(cmp) {
      forall i, j | 0 <= i < j < |s|
        ensures IndexOf(s, s[i]) < IndexOf(s, s[j])
      {
        IndexOfDistinct(s, i);
        IndexOfDistinct(s, j);
      }
      MergeSortSortedStable(s, s, cmp);
    }
  }
}
