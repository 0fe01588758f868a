/** The node of the doubly-linked list (`list_node_type` in linkedlist.c),
    the payload it carries, and the ghost vocabulary that relates a chain of
    nodes to the sequence of nodes it spells out. */
module Nodes {

  /** An opaque payload reference (a C `void *`). `Null` is the NULL pointer,
      which `ll_iter_get`, `ll_find` and `ll_copy` also use as an end marker. */
  datatype Payload = Null | Ref(address: nat)

  /** The largest C `unsigned long` on a 64-bit target: `size` has this type. */
  const ULONG_MAX: int := 0xFFFF_FFFF_FFFF_FFFF

  type ULong = x: int | 0 <= x <= ULONG_MAX

  /** Counting one more modulo 2^64: `size++` on an `unsigned long`. */
  lemma WrapSucc(k: nat)
    ensures (k + 1) % (ULONG_MAX + 1) == if k % (ULONG_MAX + 1) == ULONG_MAX then 0 else k % (ULONG_MAX + 1) + 1
  {
  }

  class Node {
    var next: Node?
    var previous: Node?
    /** No function of the library writes `data` after the node is created. */
    const data: Payload

    /** `ll_new_node`: a node holding `data` with both links NULL. */
    constructor (data: Payload)
      ensures this.data == data && next == null && previous == null
    {
      this.data := data;
      next := null;
      previous := null;
    }
  }

  function First(ns: seq<Node>): (r: Node?) {
    if ns == [] then null else ns[0]
  }

  function Last(ns: seq<Node>): (r: Node?) {
    if ns == [] then null else ns[|ns| - 1]
  }

  ghost predicate Distinct(ns: seq<Node>) {
    forall i, j :: 0 <= i < j < |ns| ==> ns[i] != ns[j]
  }

  lemma DistinctHead(ns: seq<Node>)
    requires Distinct(ns) && ns != []
    ensures ns[0] !in ns[1..]
  {
  }

  lemma DistinctTail(ns: seq<Node>)
    requires Distinct(ns) && ns != []
    ensures Distinct(ns[1..])
  {
    forall i, j | 0 <= i < j < |ns| - 1
      ensures ns[1..][i] != ns[1..][j]
    {
      assert ns[1..][i] == ns[i + 1] && ns[1..][j] == ns[j + 1];
    }
  }

  lemma DistinctCons(h: Node, ns: seq<Node>)
    requires Distinct(ns) && h !in ns
    ensures Distinct([h] + ns)
  {
    var t := [h] + ns;
    forall i, j | 0 <= i < j < |t|
      ensures t[i] != t[j]
    {
      assert t[j] == ns[j - 1];
      if i > 0 {
        assert t[i] == ns[i - 1];
      }
    }
  }

  /** Both parts of a sequence of distinct nodes are distinct, and no node
      is in both. */
  lemma DistinctSplit(ns: seq<Node>, m: nat)
    requires Distinct(ns) && m <= |ns|
    ensures Distinct(ns[..m]) && Distinct(ns[m..])
    ensures forall x :: x in ns[..m] ==> x !in ns[m..]
  {
    forall i, j | 0 <= i < j < |ns| - m
      ensures ns[m..][i] != ns[m..][j]
    {
      assert ns[m..][i] == ns[m + i] && ns[m..][j] == ns[m + j];
    }
  }

  /** `h` starts a NULL-terminated chain of `next` links that visits the
      distinct nodes `ns` in order. */
  ghost predicate Chain(h: Node?, ns: seq<Node>)
    reads ns
  {
    && Distinct(ns)
    && h == First(ns)
    && (forall i :: 0 <= i < |ns| - 1 ==> ns[i].next == ns[i + 1])
    && (ns != [] ==> ns[|ns| - 1].next == null)
  }

  /** Cutting the `next` link of the node at index `m - 1` splits a chain
      into the chains of `ns[..m]` and `ns[m..]`. */
  lemma ChainCut(h: Node?, ns: seq<Node>, m: nat)
    requires Distinct(ns) && 0 < m <= |ns| && h == ns[0]
    requires ns[m - 1].next == null
    requires forall i :: 0 <= i < |ns| - 1 && i != m - 1 ==> ns[i].next == ns[i + 1]
    requires ns[|ns| - 1].next == null
    ensures Chain(h, ns[..m]) && Chain(First(ns[m..]), ns[m..])
    ensures forall x :: x in ns[..m] ==> x !in ns[m..]
  {
    var left, right := ns[..m], ns[m..];
    DistinctSplit(ns, m);
    forall i | 0 <= i < |right| - 1
      ensures right[i].next == right[i + 1]
    {
      assert right[i] == ns[m + i] && right[i + 1] == ns[m + i + 1];
    }
    forall i | 0 <= i < |left| - 1
      ensures left[i].next == left[i + 1]
    {
      assert left[i] == ns[i] && left[i + 1] == ns[i + 1];
    }
  }

  /** The successor of `s[k]` in `s`, or `null` for the last element. */
  function NextIn(s: seq<Node>, k: int): (r: Node?)
    requires 0 <= k < |s|
  {
    if k + 1 < |s| then s[k + 1] else null
  }

  /** In a chain, the `next` link of every node is its successor. */
  lemma ChainNext(h: Node?, ns: seq<Node>, k: int)
    requires Chain(h, ns) && 0 <= k < |ns|
    ensures ns[k].next == NextIn(ns, k)
  {
  }

  /** `t` starts a NULL-terminated chain of `previous` links that visits `ns`
      backwards. */
  ghost predicate BackChain(t: Node?, ns: seq<Node>)
    reads ns
  {
    && t == Last(ns)
    && (forall i :: 0 < i < |ns| ==> ns[i].previous == ns[i - 1])
    && (ns != [] ==> ns[0].previous == null)
  }

  /** In a backward chain, the `previous` link of every node is the node
      that follows it when `ns` is read backwards. */
  lemma BackChainPrevious(t: Node?, ns: seq<Node>, k: int)
    requires BackChain(t, ns) && Distinct(ns) && 0 <= k < |ns|
    ensures IndexOf(Reversed(ns), ns[k]) == |ns| - 1 - k
    ensures ns[k].previous == NextIn(Reversed(ns), |ns| - 1 - k)
  {
    var r := Reversed(ns);
    assert r[|ns| - 1 - k] == ns[k];
    IndexOfDistinct(r, |ns| - 1 - k);
  }

  /** The node after the first one: the new head once the first is popped. */
  function Second(ns: seq<Node>): (r: Node?) {
    if |ns| > 1 then ns[1] else null
  }

  /** The node before the last one: the new tail once the last is popped. */
  function Penultimate(ns: seq<Node>): (r: Node?) {
    if |ns| > 1 then ns[|ns| - 2] else null
  }

  /** `s` with `x` inserted at position `p`. */
  function Insert<T>(s: seq<T>, p: nat, x: T): (r: seq<T>)
    requires p <= |s|
    ensures |r| == |s| + 1
  {
    s[..p] + [x] + s[p..]
  }

  /** The elements of `Insert(s, p, x)`: those of `s` before `p`, then `x`,
      then the rest of `s`, shifted by one. */
  lemma InsertIndex<T>(s: seq<T>, p: nat, x: T)
    requires p <= |s|
    ensures Insert(s, p, x)[p] == x
    ensures forall i :: 0 <= i < p ==> Insert(s, p, x)[i] == s[i]
    ensures forall i :: p < i <= |s| ==> Insert(s, p, x)[i] == s[i - 1]
  {
  }

  /** Linking a node that is not yet in a chain between two adjacent nodes
      of the chain gives the chain with that node inserted. */
  lemma InsertChain(h: Node?, ns: seq<Node>, p: nat, n: Node)
    requires Distinct(ns) && n !in ns && 0 < p < |ns| && h == ns[0]
    requires forall i :: 0 <= i < |ns| - 1 && i != p - 1 ==> ns[i].next == ns[i + 1]
    requires ns[p - 1].next == n && n.next == ns[p] && ns[|ns| - 1].next == null
    ensures Chain(h, Insert(ns, p, n))
  {
    var t := Insert(ns, p, n);
    InsertIndex(ns, p, n);
    forall i | 0 <= i < |t| - 1
      ensures t[i].next == t[i + 1]
    {
      if i < p - 1 {
        assert t[i] == ns[i] && t[i + 1] == ns[i + 1];
      } else if i > p {
        assert t[i] == ns[i - 1] && t[i + 1] == ns[i];
      }
    }
    forall i, j | 0 <= i < j < |t|
      ensures t[i] != t[j]
    {
      if j < p {
        assert t[i] == ns[i] && t[j] == ns[j];
      } else if j > p && i != p {
        assert t[j] == ns[j - 1];
        if i < p {
          assert t[i] == ns[i];
        } else {
          assert t[i] == ns[i - 1];
        }
      } else if j > p {
        assert t[j] == ns[j - 1];
      }
    }
  }

  /** The same for the backward chain of `previous` links. */
  lemma InsertBackChain(t: Node?, ns: seq<Node>, p: nat, n: Node)
    requires 0 < p < |ns| && t == ns[|ns| - 1]
    requires forall i :: 0 < i < |ns| && i != p ==> ns[i].previous == ns[i - 1]
    requires ns[p].previous == n && n.previous == ns[p - 1] && ns[0].previous == null
    ensures BackChain(t, Insert(ns, p, n))
  {
    var r := Insert(ns, p, n);
    InsertIndex(ns, p, n);
    forall i | 0 < i < |r|
      ensures r[i].previous == r[i - 1]
    {
      if i < p {
        assert r[i] == ns[i] && r[i - 1] == ns[i - 1];
      } else if i > p + 1 {
        assert r[i] == ns[i - 1] && r[i - 1] == ns[i - 2];
      }
    }
  }

  /** The payloads held by `ns`, in order. */
  function Payloads(ns: seq<Node>): (r: seq<Payload>) {
    seq(|ns|, i requires 0 <= i < |ns| => ns[i].data)
  }

  lemma PayloadsAppend(x: seq<Node>, y: seq<Node>)
    ensures Payloads(x + y) == Payloads(x) + Payloads(y)
  {
  }

  lemma PayloadsInsert(ns: seq<Node>, p: nat, n: Node)
    requires p <= |ns|
    ensures Payloads(Insert(ns, p, n)) == Insert(Payloads(ns), p, n.data)
  {
  }

  /** The position of the first occurrence of `n` in `ns`, or `|ns|`. */
  function IndexOf(ns: seq<Node>, n: Node): (k: nat)
    ensures k <= |ns|
    ensures k < |ns| ==> ns[k] == n
    ensures forall j :: 0 <= j < k ==> ns[j] != n
  {
    if ns == [] then 0
    else if ns[0] == n then 0
    else 1 + IndexOf(ns[1..], n)
  }

  lemma IndexOfDistinct(ns: seq<Node>, i: int)
    requires Distinct(ns) && 0 <= i < |ns|
    ensures IndexOf(ns, ns[i]) == i
  {
  }

  /** `ns` read from its last element to its first: the order of a reverse
      iteration. */
  function Reversed(ns: seq<Node>): (r: seq<Node>)
    ensures |r| == |ns|
    ensures forall i :: 0 <= i < |ns| ==> r[i] == ns[|ns| - 1 - i]
  {
    if ns == [] then [] else [ns[|ns| - 1]] + Reversed(ns[..|ns| - 1])
  }
}
