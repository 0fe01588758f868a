/** The list and its cursor (`ll_list_type` and `ll_iter_type` in
    linkedlist.c) with the public functions of the library. The ghost field
    `nodes` of a list is the sequence of nodes its links spell out, and
    `freed` holds the nodes the library has passed to `free`. */
module LinkedList {
  import opened Nodes
  import opened SortSpec
  import opened MergeLoop
  import opened ChainSort

  /** The position in `s` of the first payload that is `item` or NULL, or
      `|s|` when there is none: where the scans of `ll_find` and `ll_copy`
      stop. */
  function StopIndex(s: seq<Payload>, item: Payload): (k: nat)
    ensures k <= |s|
    ensures forall j :: 0 <= j < k ==> s[j] != Null && s[j] != item
    ensures k < |s| ==> s[k] == Null || s[k] == item
  {
    if s == [] || s[0] == Null || s[0] == item then 0 else 1 + StopIndex(s[1..], item)
  }

  class List {
    var head: Node?
    var tail: Node?
    var size: ULong
    /** The nodes of the list in forward order. */
    ghost var nodes: seq<Node>
    /** The nodes the library has freed. */
    ghost var freed: set<Node>

    /** The `next` links run from `head` through `nodes` and the `previous`
        links from `tail` back through them. */
    ghost predicate LinksOk()
      reads this, nodes
    {
      Chain(head, nodes) && BackChain(tail, nodes)
    }

    /** No node of the list has been freed. */
    ghost predicate Live()
      reads this
    {
      forall x :: x in nodes ==> x !in freed
    }

    /** A well-formed list: consistent links, no dangling node, and `size`
        counting the nodes. */
    ghost predicate Valid()
      reads this, nodes
    {
      LinksOk() && Live() && size == |nodes|
    }

    /** The payloads of the list, front to back. */
    ghost function Contents(): (r: seq<Payload>)
      reads this
    {
      Payloads(nodes)
    }

    /** The node at position `k`, or NULL past the end. */
    ghost function At(k: nat): (r: Node?)
      reads this
    {
      if k < |nodes| then nodes[k] else null
    }

    /** `ll_new_list`. */
    constructor ()
      ensures Valid() && nodes == [] && freed == {}
    {
      head, tail, size := null, null, 0;
      nodes, freed := [], {};
    }

    /** `ll_size`. */
    function Size(): (r: ULong)
      reads this, nodes
      ensures Valid() ==> r == |Contents()|
    {
      size
    }

    /** `ll_empty`. */
    function Empty(): (r: bool)
      reads this, nodes
      ensures Valid() ==> (r <==> Contents() == [])
      ensures Valid() ==> (r <==> head == null && tail == null)
    {
      size == 0
    }

    /** `ll_clear`: removes through a fresh forward cursor until `size` is
        0. As `ll_iter_remove` relinks nothing, `head`, `tail` and `nodes`
        still name the freed nodes afterwards, and the cursor is never freed.
        With `size` 0 the loop does not run and nothing is read. Otherwise
        the cursor follows `next` links only, and the loop ends only if the
        cursor has not run off the end first, that is, if `size` does not
        exceed the number of nodes. */
    method Clear()
      requires size > 0 ==> Chain(head, nodes) && Live() && size <= |nodes|
      modifies this
      ensures old(size) == 0 ==> unchanged(this)
      ensures size == 0 && head == old(head) && tail == old(tail) && nodes == old(nodes)
      ensures freed == old(freed) + set x | x in old(nodes)[..old(size)]
      ensures LinksOk() <==> old(LinksOk())
      ensures Live() <==> old(size) == 0 && old(Live())
    {
      var it := new Iter.Forward(this);
      ghost var k := 0;
      while !Empty()
        invariant it.l == this && !it.reverse
        invariant head == old(head) && tail == old(tail) && nodes == old(nodes)
        invariant old(size) > 0 ==> Chain(head, nodes) && forall x :: x in nodes ==> x !in old(freed)
        invariant 0 <= k <= old(size) && size == old(size) - k
        invariant old(size) > 0 ==> it.current == At(k)
        invariant freed == old(freed) + set x | x in nodes[..k]
        invariant k == 0 ==> unchanged(this)
        decreases size
      {
        ChainNext(head, nodes, k);
        assert nodes[..k + 1] == nodes[..k] + [nodes[k]];
        it.Remove();
        k := k + 1;
      }
      if old(size) > 0 {
        assert nodes[0] in nodes && nodes[0] in nodes[..old(size)];
      } else {
        assert nodes[..k] == [];
      }
    }

    /** `ll_find`: a forward cursor at the first node whose payload is
        `item` or NULL, exhausted when there is none. */
    method Find(item: Payload) returns (it: Iter)
      requires Chain(head, nodes) && Live()
      ensures fresh(it) && it.l == this && !it.reverse
      ensures it.current == At(StopIndex(Contents(), item))
    {
      it := new Iter.Forward(this);
      ghost var s, k := Contents(), 0;
      while it.Get() != Null && it.Get() != item
        invariant it.l == this && !it.reverse
        invariant 0 <= k <= StopIndex(s, item)
        invariant it.current == At(k)
        decreases |nodes| - k
      {
        assert it.Get() == s[k];
        ChainNext(head, nodes, k);
        it.Advance();
        k := k + 1;
      }
    }

    /** `ll_sort`: merge sort on the `next` links, then one pass that sets
        every `previous` link and `tail` again. */
    method Sort(cmp: Comparator)
      requires Chain(head, nodes) && Live()
      modifies this, set x | x in nodes
      ensures LinksOk() && Live()
      ensures size == old(size) && freed == old(freed)
      ensures nodes == MergeSort(old(nodes), cmp)
      ensures multiset(nodes) == multiset(old(nodes))
      ensures multiset(Contents()) == multiset(old(Contents()))
      ensures TotalPreorder(cmp) ==> Sorted(nodes, cmp) && Stable(old(nodes), nodes, cmp)
    {
      ghost var ns := nodes;
      var h, t, rs := SortChain(head, nodes, cmp);
      head, tail, nodes := h, t, rs;
      MergeSortCorrect(ns, cmp);
    }

    /** `ll_push_front`: a new node holding `item` becomes the head; `size`
        is an `unsigned long` and wraps around. */
    method PushFront(item: Payload)
      requires head != null ==> head !in freed
      modifies this, head
      ensures fresh(head) && head.data == item && head.next == old(head)
      ensures old(head) != null ==> old(head).previous == head && old(head).next == old(head.next)
      ensures nodes == [head] + old(nodes) && Contents() == [item] + old(Contents())
      ensures tail == (if old(tail) == null then head else old(tail))
      ensures size == (if old(size) == ULONG_MAX then 0 else old(size) + 1)
      ensures freed == old(freed)
      ensures old(LinksOk()) ==> LinksOk()
      ensures old(LinksOk()) && old(nodes) == [] ==> head == tail
      ensures old(Live()) ==> Live()
      ensures old(Valid()) && old(size) < ULONG_MAX ==> Valid()
    {
      var n := new Node(item);
      n.next := head;
      if head != null {
        head.previous := n;
      }
      head := n;
      if tail == null {
        tail := n;
      }
      size := if size == ULONG_MAX then 0 else size + 1;
      nodes := [n] + nodes;
    }

    /** `ll_push_back`: a new node holding `item` becomes the tail. */
    method PushBack(item: Payload)
      requires tail != null ==> tail !in freed
      modifies this, tail
      ensures fresh(tail) && tail.data == item && tail.previous == old(tail)
      ensures old(tail) != null ==> old(tail).next == tail && old(tail).previous == old(tail.previous)
      ensures nodes == old(nodes) + [tail] && Contents() == old(Contents()) + [item]
      ensures head == (if old(head) == null then tail else old(head))
      ensures size == (if old(size) == ULONG_MAX then 0 else old(size) + 1)
      ensures freed == old(freed)
      ensures old(LinksOk()) ==> LinksOk()
      ensures old(LinksOk()) && old(nodes) == [] ==> head == tail
      ensures old(Live()) ==> Live()
      ensures old(Valid()) && old(size) < ULONG_MAX ==> Valid()
    {
      var n := new Node(item);
      n.previous := tail;
      if tail != null {
        tail.next := n;
      }
      tail := n;
      if head == null {
        head := n;
      }
      size := if size == ULONG_MAX then 0 else size + 1;
      nodes := nodes + [n];
    }

    /** `ll_pop_front`: NULL on a list whose `size` is 0; otherwise the head
        is unlinked and freed, its payload returned, and `tail` cleared once
        `size` reaches 0. */
    method PopFront() returns (item: Payload)
      requires size > 0 ==> LinksOk() && Live() && nodes != []
      modifies this, Second(nodes)
      ensures old(size) == 0 ==> item == Null && unchanged(this)
      ensures old(size) == 0 && |old(nodes)| > 1 ==> unchanged(old(nodes)[1])
      ensures old(size) > 0 ==> item == old(Contents())[0] && Contents() == old(Contents())[1..]
      ensures old(size) > 0 ==> nodes == old(nodes)[1..] && size == old(size) - 1
      ensures old(size) > 0 ==> freed == old(freed) + {old(nodes)[0]}
      ensures old(size) > 0 ==> head == Second(old(nodes)) && (head != null ==> head.previous == null)
      ensures old(size) > 0 ==> tail == (if size == 0 then null else old(tail))
      ensures old(size) > 0 && |old(nodes)| > 1 ==> old(nodes)[1].next == old(nodes[1].next)
      ensures old(size) > 0 ==> (LinksOk() <==> (size == 0 <==> nodes == []))
      ensures old(size) > 0 || old(Live()) ==> Live()
      ensures old(Valid()) ==> Valid()
    {
      if size == 0 {
        return Null;
      }
      ChainNext(head, nodes, 0);
      var n := head;
      head := head.next;
      if head != null {
        head.previous := null;
      }
      size := size - 1;
      if size == 0 {
        tail := null;
      }
      item := n.data;
      freed := freed + {n};
      nodes := nodes[1..];
    }

    /** `ll_pop_back`: the mirror image of `PopFront` at the tail. */
    method PopBack() returns (item: Payload)
      requires size > 0 ==> LinksOk() && Live() && nodes != []
      modifies this, Penultimate(nodes)
      ensures old(size) == 0 ==> item == Null && unchanged(this)
      ensures old(size) == 0 && |old(nodes)| > 1 ==> unchanged(old(nodes)[|old(nodes)| - 2])
      ensures old(size) > 0 ==> item == old(Contents())[|old(nodes)| - 1]
      ensures old(size) > 0 ==> Contents() == old(Contents())[..|old(nodes)| - 1]
      ensures old(size) > 0 ==> nodes == old(nodes)[..|old(nodes)| - 1] && size == old(size) - 1
      ensures old(size) > 0 ==> freed == old(freed) + {old(nodes)[|old(nodes)| - 1]}
      ensures old(size) > 0 ==> tail == Penultimate(old(nodes)) && (tail != null ==> tail.next == null)
      ensures old(size) > 0 ==> head == (if size == 0 then null else old(head))
      ensures old(size) > 0 && |old(nodes)| > 1 ==>
        old(nodes)[|old(nodes)| - 2].previous == old(nodes[|nodes| - 2].previous)
      ensures old(size) > 0 ==> (LinksOk() <==> (size == 0 <==> nodes == []))
      ensures old(size) > 0 || old(Live()) ==> Live()
      ensures old(Valid()) ==> Valid()
    {
      if size == 0 {
        return Null;
      }
      var n := tail;
      tail := tail.previous;
      if tail != null {
        tail.next := null;
      }
      size := size - 1;
      if size == 0 {
        head := null;
      }
      item := n.data;
      freed := freed + {n};
      nodes := nodes[..|nodes| - 1];
    }
  }

  class Iter {
    const l: List
    var current: Node?
    const reverse: bool

    /** `ll_iter`: a forward cursor at the head. */
    constructor Forward(l: List)
      ensures this.l == l && !reverse && current == l.head
    {
      this.l := l;
      current := l.head;
      reverse := false;
    }

    /** `ll_iter_reverse`: a backward cursor at the tail. */
    constructor Reverse(l: List)
      ensures this.l == l && reverse && current == l.tail
    {
      this.l := l;
      current := l.tail;
      reverse := true;
    }
    /** The nodes in the order this cursor visits them. */
    ghost function Order(): (r: seq<Node>)
      reads l
    {
      if reverse then Reversed(l.nodes) else l.nodes
    }

    /** The node `ll_iter_advance` moves to: the neighbour ahead in the
        cursor's direction, NULL when exhausted. */
    ghost function Following(): (r: Node?)
      reads this, current
    {
      if current == null then null else if reverse then current.previous else current.next
    }

    /** The neighbour of the cursor on the side it has already passed: the
        node `ll_iter_insert_before` links the new node to. */
    ghost function Visited(): (r: Node?)
      reads this, current
    {
      if current == null then null else if reverse then current.next else current.previous
    }

    /** Where `ll_iter_insert_before` puts its node in forward list order:
        before the cursor going forward, after it going backwards. */
    ghost function InsertionPoint(): (r: nat)
      reads this, l
      requires current != null
    {
      if reverse then IndexOf(l.nodes, current) + 1 else IndexOf(l.nodes, current)
    }

    /** `ll_iter_get`: the payload under the cursor, NULL once exhausted. */
    function Get(): (r: Payload)
      reads this, l
      requires current != null ==> current !in l.freed
      ensures current == null ==> r == Null
      ensures current in l.nodes ==> r == l.Contents()[IndexOf(l.nodes, current)]
    {
      if current == null then Null else current.data
    }

    /** `ll_iter_advance`: one step in the cursor's direction; an exhausted
        cursor stays exhausted. */
    method Advance()
      requires current != null ==> current !in l.freed
      modifies this
      ensures current == old(Following())
      ensures old(current) == null ==> current == null
      ensures old(l.LinksOk() && current in Order()) ==>
        current == NextIn(Order(), IndexOf(Order(), old(current)))
    {
      if l.LinksOk() && current in Order() {
        FollowingInOrder(this);
      }
      if current != null {
        if reverse {
          current := current.previous;
        } else {
          current := current.next;
        }
      }
    }

    /** `ll_iter_remove`: advance, then free the node that was under the
        cursor and decrement the list's `size`. The neighbours, `head` and
        `tail` are not relinked, so the freed node stays in `nodes`. */
    method Remove()
      requires current != null ==> current !in l.freed
      modifies this, l
      ensures l.head == old(l.head) && l.tail == old(l.tail) && l.nodes == old(l.nodes)
      ensures current == old(Following())
      ensures old(l.LinksOk() && current in Order()) ==>
        current == NextIn(Order(), IndexOf(Order(), old(current)))
      ensures old(current) == null ==> l.size == old(l.size) && l.freed == old(l.freed)
      ensures old(current) != null ==> l.size == (if old(l.size) == 0 then ULONG_MAX else old(l.size) - 1)
      ensures old(current) != null ==> l.freed == old(l.freed) + {old(current)}
    {
      if current != null {
        var n: Node := current;
        Advance();
        l.freed := l.freed + {n};
        l.size := if l.size == 0 then ULONG_MAX else l.size - 1;
      }
    }

    /** `ll_iter_insert_before`: a new node holding `item` is linked between
        the cursor and its neighbour on the visited side. The cursor does not
        move, and `size`, `head` and `tail` are left as they were. */
    method InsertBefore(item: Payload)
      requires current != null && Visited() != null
      requires current !in l.freed && Visited() !in l.freed
      modifies l, current, Visited()
      ensures current == old(current)
      ensures l.head == old(l.head) && l.tail == old(l.tail) && l.size == old(l.size) && l.freed == old(l.freed)
      ensures Visited() != null && fresh(Visited()) && Visited().data == item && Visited().next != null
      ensures reverse ==> Visited().previous == current && Visited().next == old(Visited())
      ensures !reverse ==> Visited().next == current && Visited().previous == old(Visited())
      ensures reverse ==> old(Visited()).previous == Visited()
      ensures !reverse ==> old(Visited()).next == Visited()
      ensures reverse && old(Visited()) != current ==>
        old(Visited()).next == old(Visited().next) && current.previous == old(current.previous)
      ensures !reverse && old(Visited()) != current ==>
        old(Visited()).previous == old(Visited().previous) && current.next == old(current.next)
      ensures old(current in l.nodes) ==>
        && l.nodes == Insert(old(l.nodes), old(InsertionPoint()), Visited())
        && l.Contents() == Insert(old(l.Contents()), old(InsertionPoint()), item)
      ensures old(l.LinksOk() && current in l.nodes) ==> l.LinksOk()
      ensures old(l.Valid() && current in l.nodes) ==> l.Live() && l.size == |l.nodes| - 1
    {
      ghost var ns := l.nodes;
      ghost var p := if current in ns then InsertionPoint() else 0;
      var n := new Node(item);
      if reverse {
        LinkAfter(l, current, n);
      } else {
        LinkBefore(l, current, n);
      }
      if current in ns {
        PayloadsInsert(ns, p, n);
      }
    }
  }

  /** The body of `ll_sort` on the chain from `h`: `merge_sort`, then the
      repair pass; returns the new first and last nodes. */
  method SortChain(h: Node?, ghost ns: seq<Node>, cmp: Comparator)
    returns (first: Node?, last: Node?, ghost rs: seq<Node>)
    requires Chain(h, ns)
    modifies set x | x in ns
    ensures rs == MergeSort(ns, cmp) && Chain(first, rs) && BackChain(last, rs)
    ensures forall x :: x in rs ==> x in ns
  {
    MergeSortPermutes(ns, cmp);
    // `merge_sort` writes no `previous` link; the repair pass rewrites them all.
    ghost var prev := map x | x in ns :: x.previous;
    first, rs := MergeSortChain(h, ns, cmp, prev);
    forall x | x in rs
      ensures x in ns
    {
      assert x in multiset(rs);
    }
    last := first;
    if last != null {
      last := RelinkPrevious(last, rs);
    }
  }

  /** The repair pass of `ll_sort`: walks the chain from `h`, pointing the
      `previous` link of each node at the node before it, and returns the
      last node. */
  method RelinkPrevious(h: Node, ghost rs: seq<Node>) returns (t: Node)
    requires Chain(h, rs)
    modifies set x | x in rs
    ensures Chain(h, rs) && BackChain(t, rs)
  {
    ghost var keep := ChainSnapshot(h, rs);
    ghost var k := 0;
    var n := h;
    n.previous := null;
    while n.next != null
      invariant 0 <= k < |rs| && n == rs[k]
      invariant Matches(keep)
      invariant rs[0].previous == null
      invariant forall i :: 0 < i <= k ==> rs[i].previous == rs[i - 1]
      decreases |rs| - k
    {
      assert Linked(keep, rs, k);
      n.next.previous := n;
      n := n.next;
      k := k + 1;
    }
    assert Linked(keep, rs, k);
    MatchesChain(keep, rs);
    t := n;
  }

  /** The forward branch of `ll_iter_insert_before`: `n` goes between `c`
      and its predecessor, so in the order of `l` it comes just before `c`. */
  method LinkBefore(l: List, c: Node, n: Node)
    requires c.previous != null && n != c && n != c.previous && n !in l.nodes && n !in l.freed
    modifies l, c, n, c.previous
    ensures n.previous == old(c.previous) && n.next == c
    ensures old(c.previous).next == n && c.previous == n
    ensures old(c.previous) != c ==> old(c.previous).previous == old(c.previous.previous) && c.next == old(c.next)
    ensures l.head == old(l.head) && l.tail == old(l.tail) && l.size == old(l.size) && l.freed == old(l.freed)
    ensures c in old(l.nodes) ==> l.nodes == Insert(old(l.nodes), IndexOf(old(l.nodes), c), n)
    ensures c !in old(l.nodes) ==> l.nodes == old(l.nodes)
    ensures old(l.LinksOk()) && c in old(l.nodes) ==> l.LinksOk()
    ensures old(l.Live()) ==> l.Live()
  {
    ghost var ns := l.nodes;
    ghost var p := IndexOf(ns, c);
    ghost var linked := l.LinksOk() && c in ns;
    if c in ns {
      l.nodes := Insert(ns, p, n);
    }
    if linked {
      // `c` has a predecessor, so it is not the head.
      assert ns[0].previous == null;
      assert c.previous == ns[p - 1];
    }
    label Before:
    SpliceBefore(c, n);
    if linked {
      forall i | 0 <= i < |ns| - 1 && i != p - 1
        ensures ns[i].next == ns[i + 1]
      {
        assert ns[i] != ns[p - 1] && old@Before(ns[i].next) == ns[i + 1];
      }
      forall i | 0 < i < |ns| && i != p
        ensures ns[i].previous == ns[i - 1]
      {
        assert ns[i] != ns[p] && old@Before(ns[i].previous) == ns[i - 1];
      }
      InsertChain(l.head, ns, p, n);
      InsertBackChain(l.tail, ns, p, n);
    }
  }

  /** The reverse branch of `ll_iter_insert_before`: `n` goes between `c`
      and its successor, so in the order of `l` it comes just after `c`. */
  method LinkAfter(l: List, c: Node, n: Node)
    requires c.next != null && n != c && n != c.next && n !in l.nodes && n !in l.freed
    modifies l, c, n, c.next
    ensures n.next == old(c.next) && n.previous == c
    ensures old(c.next).previous == n && c.next == n
    ensures old(c.next) != c ==> old(c.next).next == old(c.next.next) && c.previous == old(c.previous)
    ensures l.head == old(l.head) && l.tail == old(l.tail) && l.size == old(l.size) && l.freed == old(l.freed)
    ensures c in old(l.nodes) ==> l.nodes == Insert(old(l.nodes), IndexOf(old(l.nodes), c) + 1, n)
    ensures c !in old(l.nodes) ==> l.nodes == old(l.nodes)
    ensures old(l.LinksOk()) && c in old(l.nodes) ==> l.LinksOk()
    ensures old(l.Live()) ==> l.Live()
  {
    ghost var ns := l.nodes;
    ghost var p := IndexOf(ns, c) + 1;
    ghost var linked := l.LinksOk() && c in ns;
    if c in ns {
      l.nodes := Insert(ns, p, n);
    }
    if linked {
      // `c` has a successor, so it is not the tail.
      ChainNext(l.head, ns, p - 1);
    }
    label Before:
    SpliceAfter(c, n);
    if linked {
      forall i | 0 <= i < |ns| - 1 && i != p - 1
        ensures ns[i].next == ns[i + 1]
      {
        assert ns[i] != ns[p - 1] && old@Before(ns[i].next) == ns[i + 1];
      }
      forall i | 0 < i < |ns| && i != p
        ensures ns[i].previous == ns[i - 1]
      {
        assert ns[i] != ns[p] && old@Before(ns[i].previous) == ns[i - 1];
      }
      InsertChain(l.head, ns, p, n);
      InsertBackChain(l.tail, ns, p, n);
    }
  }

  /** The four link writes of the forward branch of `ll_iter_insert_before`:
      `n` goes between `c.previous` and `c`. */
  method SpliceBefore(c: Node, n: Node)
    requires c.previous != null && n != c && n != c.previous
    modifies c, n, c.previous
    ensures n.previous == old(c.previous) && n.next == c
    ensures old(c.previous).next == n && c.previous == n
    ensures old(c.previous) != c ==> old(c.previous).previous == old(c.previous.previous) && c.next == old(c.next)
  {
    n.previous := c.previous;
    n.next := c;
    n.previous.next := n;
    c.previous := n;
  }

  /** The four link writes of the reverse branch: `n` goes between `c` and
      `c.next`. */
  method SpliceAfter(c: Node, n: Node)
    requires c.next != null && n != c && n != c.next
    modifies c, n, c.next
    ensures n.next == old(c.next) && n.previous == c
    ensures old(c.next).previous == n && c.next == n
    ensures old(c.next) != c ==> old(c.next).next == old(c.next.next) && c.previous == old(c.previous)
  {
    n.next := c.next;
    n.previous := c;
    n.next.previous := n;
    c.next := n;
  }

  /** `ll_copy`: clears `dst`, then appends the payloads of `src` from the
      front up to the first NULL one. Once `dst` has been cleared its `tail`
      names a freed node unless it was empty, so the appends are defined only
      for an empty `dst` (or when nothing is appended). */
  method Copy(src: List, dst: List)
    requires src != dst
    requires Chain(src.head, src.nodes) && src.Live()
    requires dst.size > 0 ==> Chain(dst.head, dst.nodes) && dst.Live() && dst.size <= |dst.nodes|
    requires forall x :: x in dst.nodes ==> x !in src.nodes
    requires StopIndex(src.Contents(), Null) > 0 ==> dst.LinksOk() && dst.nodes == []
    modifies dst
    ensures StopIndex(src.Contents(), Null) == 0 ==>
      && dst.size == 0 && dst.head == old(dst.head) && dst.tail == old(dst.tail)
      && dst.nodes == old(dst.nodes)
      && dst.freed == old(dst.freed) + set x | x in old(dst.nodes)[..old(dst.size)]
    ensures old(dst.LinksOk()) && old(dst.nodes) == [] ==>
      && dst.LinksOk() && dst.Live() && dst.freed == old(dst.freed)
      && dst.Contents() == src.Contents()[..StopIndex(src.Contents(), Null)]
      && dst.size == StopIndex(src.Contents(), Null) % (ULONG_MAX + 1)
      && (forall x :: x in dst.nodes ==> fresh(x))
  {
    var it := new Iter.Forward(src);
    dst.Clear();
    CopyLoop(src, dst, it);
  }

  /** The loop of `ll_copy`: while the cursor over `src` shows a payload
      other than NULL, append it to `dst` and advance. */
  method CopyLoop(src: List, dst: List, it: Iter)
    requires it.l == src && !it.reverse && it.current == src.head
    requires src != dst && Chain(src.head, src.nodes) && src.Live()
    requires StopIndex(src.Contents(), Null) > 0 ==> dst.LinksOk() && dst.Live() && dst.nodes == [] && dst.size == 0
    modifies dst, it
    ensures StopIndex(src.Contents(), Null) == 0 ==>
      && dst.size == old(dst.size) && dst.head == old(dst.head) && dst.tail == old(dst.tail)
      && dst.nodes == old(dst.nodes) && dst.freed == old(dst.freed)
    ensures StopIndex(src.Contents(), Null) > 0 ==>
      && dst.LinksOk() && dst.Live() && dst.freed == old(dst.freed)
      && dst.Contents() == src.Contents()[..StopIndex(src.Contents(), Null)]
      && dst.size == StopIndex(src.Contents(), Null) % (ULONG_MAX + 1)
      && (forall x :: x in dst.nodes ==> fresh(x))
  {
    ghost var stop := StopIndex(src.Contents(), Null);
    // The `next` links of `src`, which no step of the copy writes.
    ghost var keep := ChainSnapshot(src.head, src.nodes);
    ghost var k := 0;
    var item := it.Get();
    while item != Null
      invariant it.l == src && !it.reverse && it.current == src.At(k)
      invariant 0 <= k <= stop && item == it.Get() && Matches(keep)
      invariant k == 0 ==> dst.size == old(dst.size) && dst.head == old(dst.head) && dst.tail == old(dst.tail)
      invariant k == 0 ==> dst.nodes == old(dst.nodes) && dst.freed == old(dst.freed)
      invariant stop > 0 ==> dst.LinksOk() && dst.Live() && dst.freed == old(dst.freed)
      invariant stop > 0 ==> dst.Contents() == src.Contents()[..k] && dst.size == k % (ULONG_MAX + 1)
      invariant stop > 0 ==> forall x :: x in dst.nodes ==> fresh(x) && x !in src.nodes
      decreases stop - k
    {
      assert stop > 0 && dst.tail == Last(dst.nodes);
      assert dst.tail != null ==> dst.tail in dst.nodes;
      CopyStep(src, dst, it, item, k, keep);
      k := k + 1;
      item := it.Get();
    }
  }

  /** The body of the loop of `ll_copy`: append the payload under the cursor
      to `dst` and advance the cursor over `src`, whose `next` links are
      recorded in `keep`. */
  method CopyStep(src: List, dst: List, it: Iter, item: Payload, ghost k: nat, ghost keep: map<Node, Node?>)
    requires it.l == src && !it.reverse && it.current == src.At(k)
    requires src != dst && src.Live()
    requires Matches(keep) && forall x :: x in keep ==> x in src.nodes
    requires forall j :: 0 <= j < |src.nodes| ==> Linked(keep, src.nodes, j)
    requires k < StopIndex(src.Contents(), Null) && item == it.Get()
    requires dst.LinksOk() && dst.Live()
    requires dst.Contents() == src.Contents()[..k] && dst.size == k % (ULONG_MAX + 1)
    requires forall x :: x in dst.nodes ==> x !in src.nodes
    modifies dst, dst.tail, it
    ensures it.current == src.At(k + 1) && Matches(keep)
    ensures dst.LinksOk() && dst.Live() && dst.freed == old(dst.freed)
    ensures dst.Contents() == src.Contents()[..k + 1] && dst.size == (k + 1) % (ULONG_MAX + 1)
    ensures forall x :: x in dst.nodes ==> (x in old(dst.nodes) || fresh(x)) && x !in src.nodes
  {
    assert Linked(keep, src.nodes, k);
    assert src.Contents()[..k + 1] == src.Contents()[..k] + [item];
    assert dst.tail == Last(dst.nodes);
    WrapSucc(k);
    dst.PushBack(item);
    it.Advance();
  }

  /** Following the link in the cursor's direction moves one step along
      the order it visits: the list order forwards, its reverse backwards. */
  lemma FollowingInOrder(it: Iter)
    requires it.l.LinksOk() && it.current in it.Order()
    ensures it.Following() == NextIn(it.Order(), IndexOf(it.Order(), it.current))
  {
    var ns := it.l.nodes;
    if it.reverse {
      BackChainPrevious(it.l.tail, ns, |ns| - 1 - IndexOf(Reversed(ns), it.current));
    } else {
      ChainNext(it.l.head, ns, IndexOf(ns, it.current));
    }
  }
}
