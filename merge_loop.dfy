/** The loop invariant of `merge_sort_merge` in linkedlist.c and the lemmas
    that carry it through one iteration. The `next` links are mirrored by a
    ghost successor map, so that everything but one heap predicate is
    stated on values. */
module MergeLoop {
  import opened Nodes
  import opened SortSpec

  /** `Merge(xs[i..], ys[j..], cmp)`, indexed instead of sliced. */
  ghost function MergeFrom(xs: seq<Node>, ys: seq<Node>, i: nat, j: nat, cmp: Comparator): (r: seq<Node>)
    requires i <= |xs| && j <= |ys|
    ensures |r| == |xs| - i + |ys| - j
    decreases |xs| - i + |ys| - j
  {
    if i == |xs| then ys[j..]
    else if j == |ys| then xs[i..]
    else if cmp(xs[i].data, ys[j].data) <= 0 then [xs[i]] + MergeFrom(xs, ys, i + 1, j, cmp)
    else [ys[j]] + MergeFrom(xs, ys, i, j + 1, cmp)
  }

  lemma {:induction false} MergeFromSlices(xs: seq<Node>, ys: seq<Node>, i: nat, j: nat, cmp: Comparator)
    requires i <= |xs| && j <= |ys|
    ensures MergeFrom(xs, ys, i, j, cmp) == Merge(xs[i..], ys[j..], cmp)
    decreases |xs| - i + |ys| - j
  {
    if i < |xs| && j < |ys| {
      assert xs[i..][1..] == xs[i + 1..];
      assert ys[j..][1..] == ys[j + 1..];
      if cmp(xs[i].data, ys[j].data) <= 0 {
        MergeFromSlices(xs, ys, i + 1, j, cmp);
      } else {
        MergeFromSlices(xs, ys, i, j + 1, cmp);
      }
    }
  }

  /** The `next` links of the nodes in `succ`'s domain are the ones `succ`
      records. */
  ghost predicate Matches(succ: map<Node, Node?>)
    reads succ.Keys
  {
    forall x :: x in succ ==> x.next == succ[x]
  }

  /** The `previous` links of the nodes in `prev`'s domain are the ones
      `prev` records. */
  ghost predicate Backs(prev: map<Node, Node?>)
    reads prev.Keys
  {
    forall x :: x in prev ==> x.previous == prev[x]
  }

  /** Sets `current.next`, the one heap write of the merge, and records it
      in the successor map; `current.previous` is left as it was. */
  method Link(current: Node, x: Node?, ghost succ: map<Node, Node?>) returns (ghost succ': map<Node, Node?>)
    requires Matches(succ)
    modifies current
    ensures current.next == x && succ' == succ[current := x] && Matches(succ')
    ensures current.previous == old(current.previous)
  {
    current.next := x;
    succ' := succ[current := x];
    forall y | y in succ'
      ensures y.next == succ'[y]
    {
      if y != current {
        assert y in succ;
      }
    }
  }

  /** `succ` links `s[k]` to its successor in `s`. */
  ghost predicate Linked(succ: map<Node, Node?>, s: seq<Node>, k: int)
    requires 0 <= k < |s|
  {
    s[k] in succ && succ[s[k]] == NextIn(s, k)
  }

  /** When `succ` records the links of the distinct nodes `s` in order,
      the heap holds the chain `s`. */
  lemma MatchesChain(succ: map<Node, Node?>, s: seq<Node>)
    requires Matches(succ) && Distinct(s)
    requires forall k :: 0 <= k < |s| ==> Linked(succ, s, k)
    ensures Chain(First(s), s)
  {
    forall k | 0 <= k < |s| - 1
      ensures s[k].next == s[k + 1]
    {
      assert Linked(succ, s, k);
    }
    if s != [] {
      assert Linked(succ, s, |s| - 1);
    }
  }

  /** The converse: the `next` links of a chain, recorded as a map whose
      domain is the chain's nodes. */
  lemma ChainSnapshot(h: Node?, s: seq<Node>) returns (succ: map<Node, Node?>)
    requires Chain(h, s)
    ensures Matches(succ) && (forall x :: x in succ ==> x in s)
    ensures forall k :: 0 <= k < |s| ==> Linked(succ, s, k)
  {
    succ := map x | x in s :: x.next;
    forall k | 0 <= k < |s|
      ensures Linked(succ, s, k)
    {
      assert s[k] in s;
    }
  }

  /** The state of the merge loop of `merge_sort_merge`, with `succ` standing
      for the `next` links: `merged[..n]` is linked behind the placeholder
      `dummy` and ends at `current`; the unconsumed nodes `xs[i..]` and
      `ys[j..]` start at `a` and `b` and keep their links; and
      `merged[n..]` is what merging them yields. */
  ghost predicate MergeState(xs: seq<Node>, ys: seq<Node>, merged: seq<Node>, succ: map<Node, Node?>,
                             dummy: Node, i: int, j: int, n: int, current: Node, a: Node?, b: Node?,
                             cmp: Comparator)
  {
    && 0 <= i <= |xs| && 0 <= j <= |ys| && n == i + j <= |merged|
    && merged[n..] == MergeFrom(xs, ys, i, j, cmp)
    && a == (if i < |xs| then xs[i] else null)
    && b == (if j < |ys| then ys[j] else null)
    && (forall k :: i <= k < |xs| ==> Linked(succ, xs, k))
    && (forall k :: j <= k < |ys| ==> Linked(succ, ys, k))
    && current == (if n == 0 then dummy else merged[n - 1])
    && (n > 0 ==> (0 < i && current == xs[i - 1]) || (0 < j && current == ys[j - 1]))
    && (n > 0 ==> dummy in succ && succ[dummy] == merged[0])
    && (forall k :: 0 <= k < n - 1 ==> Linked(succ, merged, k))
  }

  /** What holds of the merge's inputs throughout: all nodes are distinct,
      and the placeholder is none of them. */
  ghost predicate Frozen(xs: seq<Node>, ys: seq<Node>, merged: seq<Node>, dummy: Node) {
    && Distinct(xs) && Distinct(ys) && Distinct(merged)
    && (forall p, q :: 0 <= p < |xs| && 0 <= q < |ys| ==> xs[p] != ys[q])
    && (forall p :: 0 <= p < |xs| ==> xs[p] != dummy)
    && (forall q :: 0 <= q < |ys| ==> ys[q] != dummy)
  }

  /** The loop step that links `a` behind `current`: `a` is not `current`,
      and after the step the state holds for `xs[i + 1..]`, whose head is
      the successor of `a`. */
  lemma TakeLeft(xs: seq<Node>, ys: seq<Node>, merged: seq<Node>, succ: map<Node, Node?>,
                      dummy: Node, i: int, j: int, n: int, current: Node, a: Node?, b: Node?,
                      cmp: Comparator)
    requires Frozen(xs, ys, merged, dummy)
    requires MergeState(xs, ys, merged, succ, dummy, i, j, n, current, a, b, cmp)
    requires a != null && b != null && cmp(a.data, b.data) <= 0
    ensures i < |xs| && a == xs[i] && a != current && Linked(succ, xs, i)
    ensures MergeState(xs, ys, merged, succ[current := a], dummy, i + 1, j, n + 1, a, NextIn(xs, i), b, cmp)
  {
    var succ' := succ[current := a];
    assert merged[n + 1..] == merged[n..][1..];
    assert merged[n] == xs[i];
    forall k | i + 1 <= k < |xs|
      ensures Linked(succ', xs, k)
    {
      assert xs[k] != current;
      assert Linked(succ, xs, k);
    }
    forall k | j <= k < |ys|
      ensures Linked(succ', ys, k)
    {
      assert ys[k] != current;
      assert Linked(succ, ys, k);
    }
    forall k | 0 <= k < n
      ensures Linked(succ', merged, k)
    {
      if k < n - 1 {
        assert merged[k] != merged[n - 1];
        assert Linked(succ, merged, k);
      }
    }
  }

  /** The loop step that links `b` behind `current`. */
  lemma TakeRight(xs: seq<Node>, ys: seq<Node>, merged: seq<Node>, succ: map<Node, Node?>,
                       dummy: Node, i: int, j: int, n: int, current: Node, a: Node?, b: Node?,
                       cmp: Comparator)
    requires Frozen(xs, ys, merged, dummy)
    requires MergeState(xs, ys, merged, succ, dummy, i, j, n, current, a, b, cmp)
    requires a != null && b != null && !(cmp(a.data, b.data) <= 0)
    ensures j < |ys| && b == ys[j] && b != current && Linked(succ, ys, j)
    ensures MergeState(xs, ys, merged, succ[current := b], dummy, i, j + 1, n + 1, b, a, NextIn(ys, j), cmp)
  {
    var succ' := succ[current := b];
    assert merged[n + 1..] == merged[n..][1..];
    assert merged[n] == ys[j];
    forall k | i <= k < |xs|
      ensures Linked(succ', xs, k)
    {
      assert xs[k] != current;
      assert Linked(succ, xs, k);
    }
    forall k | j + 1 <= k < |ys|
      ensures Linked(succ', ys, k)
    {
      assert ys[k] != current;
      assert Linked(succ, ys, k);
    }
    forall k | 0 <= k < n
      ensures Linked(succ', merged, k)
    {
      if k < n - 1 {
        assert merged[k] != merged[n - 1];
        assert Linked(succ, merged, k);
      }
    }
  }

  /** Linking the unexhausted chain behind `current` completes the chain
      `merged` behind `dummy`; `last` is the links after that. */
  lemma MergeFinish(xs: seq<Node>, ys: seq<Node>, merged: seq<Node>, succ: map<Node, Node?>,
                    dummy: Node, i: int, j: int, n: int, current: Node, a: Node?, b: Node?,
                    cmp: Comparator, last: map<Node, Node?>)
    requires Frozen(xs, ys, merged, dummy)
    requires MergeState(xs, ys, merged, succ, dummy, i, j, n, current, a, b, cmp)
    requires a == null || b == null
    requires last == succ[current := if a == null then b else a]
    ensures forall k :: 0 <= k < |merged| ==> Linked(last, merged, k)
    ensures dummy in last && last[dummy] == First(merged)
  {
    var rest := if a == null then ys[j..] else xs[i..];
    assert merged[n..] == rest;
    forall k | 0 <= k < |merged|
      ensures Linked(last, merged, k)
    {
      if k < n - 1 {
        assert merged[k] != merged[n - 1];
        assert Linked(succ, merged, k);
      } else if k == n - 1 {
      } else {
        assert merged[k] == rest[k - n];
        if a == null {
          assert merged[k] == ys[j + k - n] && ys[j + k - n] != current;
          assert Linked(succ, ys, j + k - n);
        } else {
          assert merged[k] == xs[i + k - n] && xs[i + k - n] != current;
          assert Linked(succ, xs, i + k - n);
        }
      }
    }
  }

  /** On entry to the loop nothing is linked yet behind `dummy`. */
  lemma MergeStart(a0: Node?, b0: Node?, xs: seq<Node>, ys: seq<Node>, succ: map<Node, Node?>,
                   dummy: Node, cmp: Comparator)
    requires Chain(a0, xs) && Chain(b0, ys)
    requires forall x :: x in xs ==> x !in ys
    requires dummy !in xs && dummy !in ys
    requires Matches(succ)
    requires forall x :: x in xs || x in ys ==> x in succ
    ensures Frozen(xs, ys, Merge(xs, ys, cmp), dummy)
    ensures MergeState(xs, ys, Merge(xs, ys, cmp), succ, dummy, 0, 0, 0, dummy, a0, b0, cmp)
  {
    MergeDistinct(xs, ys, cmp);
    MergeFromSlices(xs, ys, 0, 0, cmp);
    assert xs[0..] == xs && ys[0..] == ys;
    forall p, q | 0 <= p < |xs| && 0 <= q < |ys|
      ensures xs[p] != ys[q]
    {
      assert xs[p] in xs;
    }
    forall k | 0 <= k < |xs|
      ensures Linked(succ, xs, k)
    {
      assert xs[k] in xs;
    }
    forall k | 0 <= k < |ys|
      ensures Linked(succ, ys, k)
    {
      assert ys[k] in ys;
    }
  }

}
