/**
 * The node structure of `CircularLinkedList`, modelled as a value.
 *
 * Nodes live in an arena `nodes`; a reference to a node is its index there,
 * so JavaScript's reference comparison `!==` on nodes becomes `!=` on indices.
 * `append` allocates the next free index, hence arena order is append order.
 */
module CircularLinkedList {
  import opened Wrappers
  import CycleSpec

  /** A list cell: its payload and the index of the node it links to. */
  datatype Node<T> = Node(data: T, next: nat)

  /** `head` is `None` exactly when the list is empty. */
  datatype List<T> = List(head: Option<nat>, nodes: seq<Node<T>>)

  /** What a scan of `find` yields: the matching node, and how many nodes it compared. */
  datatype ScanResult = ScanResult(node: Option<nat>, comparisons: nat)

  /**
   * The closure invariant of every list built by `append`: the head is the
   * first node allocated and node `k` links to node `(k + 1) % n`, so the
   * tail links back to the head.
   */
  predicate WellFormed<T>(l: List<T>)
  {
    && (l.head.None? <==> |l.nodes| == 0)
    && (l.head.Some? ==> l.head.value == 0)
    && forall k :: 0 <= k < |l.nodes| ==> l.nodes[k].next == CycleSpec.NextPosition(k, |l.nodes|)
  }

  /** The values held by the nodes, in arena order (which is traversal order, see `Traversal`). */
  function Values<T>(l: List<T>): seq<T>
  {
    seq(|l.nodes|, k requires 0 <= k < |l.nodes| => l.nodes[k].data)
  }

  /** A freshly constructed list has no head. */
  function Empty<T>(): (l: List<T>)
    ensures WellFormed(l)
    ensures Values(l) == []
  {
    List(None, [])
  }

  /** The node reached from node `i` after following `next` `k` times. */
  function Walk<T>(l: List<T>, i: nat, k: nat): (r: nat)
    requires WellFormed(l)
    requires i < |l.nodes|
    ensures r < |l.nodes|
    decreases k
  {
    if k == 0 then i else Walk(l, l.nodes[i].next, k - 1)
  }

  /**
   * The loop of `append` that walks from `current` to the node whose `next`
   * is the head; that node is the tail, the last node allocated.
   */
  function TailFrom<T>(l: List<T>, current: nat): (t: nat)
    requires WellFormed(l)
    requires current < |l.nodes|
    ensures t == |l.nodes| - 1
    ensures l.nodes[t].next == l.head.value
    decreases |l.nodes| - current
  {
    if l.nodes[current].next != l.head.value then TailFrom(l, l.nodes[current].next)
    else current
  }

  /**
   * `append(data)`: on an empty list the new node becomes the head and links
   * to itself; otherwise the tail is redirected to the new node and the new
   * node links to the head.
   */
  function Append<T>(l: List<T>, x: T): (r: List<T>)
    requires WellFormed(l)
    ensures WellFormed(r)
    ensures Values(r) == Values(l) + [x]
    ensures l.head.None? ==> r.head == Some(0) && r.nodes == [Node(x, 0)]
    ensures l.head.Some? ==> r.head == l.head
    ensures l.head.Some? ==> |r.nodes| == |l.nodes| + 1
    ensures l.head.Some? ==> r.nodes[|l.nodes|] == Node(x, l.head.value)
    ensures l.head.Some? ==> r.nodes[|l.nodes| - 1] == Node(l.nodes[|l.nodes| - 1].data, |l.nodes|)
    ensures forall k :: 0 <= k < |l.nodes| - 1 ==> r.nodes[k] == l.nodes[k]
  {
    if l.head.None? then
      List(Some(0), [Node(x, 0)])
    else
      var tail := TailFrom(l, l.head.value);
      var newNode := |l.nodes|;
      List(l.head, l.nodes[tail := Node(l.nodes[tail].data, newNode)] + [Node(x, l.head.value)])
  }

  /**
   * The two phases of `find`, starting at `current`: while `current.next` is
   * not the head, test `current` and move on; then test the tail on its own.
   */
  function ScanFrom<T(==)>(l: List<T>, current: nat, x: T): (r: ScanResult)
    requires WellFormed(l)
    requires current < |l.nodes|
    ensures r.node.Some? ==> current <= r.node.value < |l.nodes| && l.nodes[r.node.value].data == x
    ensures r.node.Some? ==> forall j :: current <= j < r.node.value ==> l.nodes[j].data != x
    ensures r.node.None? ==> forall j :: current <= j < |l.nodes| ==> l.nodes[j].data != x
    ensures r.node.Some? ==> r.comparisons == r.node.value - current + 1
    ensures r.node.None? ==> r.comparisons == |l.nodes| - current
    decreases |l.nodes| - current
  {
    if l.nodes[current].next != l.head.value then
      if l.nodes[current].data == x then ScanResult(Some(current), 1)
      else
        var rest := ScanFrom(l, l.nodes[current].next, x);
        ScanResult(rest.node, rest.comparisons + 1)
    else if l.nodes[current].data == x then ScanResult(Some(current), 1)
    else ScanResult(None, 1)
  }

  /**
   * `find(data)`: the first node, from the head to the tail, holding `x`, or
   * `None` (JavaScript's `null`). The source does not guard the empty list,
   * where it dereferences `null`, so the list must be non-empty.
   */
  function Find<T(==)>(l: List<T>, x: T): (r: Option<nat>)
    requires WellFormed(l)
    requires l.head.Some?
    ensures r.Some? ==> r.value < |l.nodes| && l.nodes[r.value].data == x
    ensures r.Some? ==> forall j :: 0 <= j < r.value ==> l.nodes[j].data != x
    ensures r.None? <==> x !in Values(l)
    ensures r == CycleSpec.FirstIndex(Values(l), x)
  {
    var r := ScanFrom(l, l.head.value, x).node;
    FindAgreesWithFirstIndex(l, x, r);
    r
  }

  /** A scan result with the first-match properties is the reference `FirstIndex`. */
  lemma FindAgreesWithFirstIndex<T>(l: List<T>, x: T, r: Option<nat>)
    requires r.Some? ==> r.value < |l.nodes| && l.nodes[r.value].data == x
    requires r.Some? ==> forall j :: 0 <= j < r.value ==> l.nodes[j].data != x
    requires r.None? ==> forall j :: 0 <= j < |l.nodes| ==> l.nodes[j].data != x
    ensures r.None? <==> x !in Values(l)
    ensures r == CycleSpec.FirstIndex(Values(l), x)
  {
    var vs := Values(l);
    if r.Some? {
      assert vs[r.value] == x;
      CycleSpec.FirstIndexOfFirstOccurrence(vs, r.value);
    } else {
      assert forall j :: 0 <= j < |vs| ==> vs[j] != x;
    }
  }

  /** `find` compares at most one node per element: it terminates after at most `n` comparisons. */
  lemma FindComparisonsBounded<T>(l: List<T>, x: T)
    requires WellFormed(l)
    requires l.head.Some?
    ensures 1 <= ScanFrom(l, l.head.value, x).comparisons <= |l.nodes|
    ensures ScanFrom(l, l.head.value, x).node.None? ==> ScanFrom(l, l.head.value, x).comparisons == |l.nodes|
  {
  }

  /** Inside the arena, each step of `next` moves to the following node. */
  lemma {:induction false} WalkAhead<T>(l: List<T>, i: nat, k: nat)
    requires WellFormed(l)
    requires i + k < |l.nodes|
    ensures Walk(l, i, k) == i + k
    decreases k
  {
    if k > 0 {
      WalkAhead(l, i + 1, k - 1);
    }
  }

  /** From node `i`, `n - i` steps reach the head: the tail links back to it. */
  lemma {:induction false} WalkToHead<T>(l: List<T>, i: nat)
    requires WellFormed(l)
    requires i < |l.nodes|
    ensures Walk(l, i, |l.nodes| - i) == 0
    decreases |l.nodes| - i
  {
    if i + 1 < |l.nodes| {
      WalkToHead(l, i + 1);
    }
  }

  /** Walking `a` steps and then `b` steps is walking `a + b` steps. */
  lemma {:induction false} WalkCompose<T>(l: List<T>, i: nat, a: nat, b: nat)
    requires WellFormed(l)
    requires i < |l.nodes|
    ensures Walk(l, i, a + b) == Walk(l, Walk(l, i, a), b)
    decreases a
  {
    if a > 0 {
      WalkCompose(l, l.nodes[i].next, a - 1, b);
    }
  }

  /** Every node returns to itself after exactly one full turn of `n` steps. */
  lemma WalkFullTurn<T>(l: List<T>, i: nat)
    requires WellFormed(l)
    requires i < |l.nodes|
    ensures Walk(l, i, |l.nodes|) == i
  {
    var n := |l.nodes|;
    WalkCompose(l, i, n - i, i);
    WalkToHead(l, i);
    WalkAhead(l, 0, i);
  }

  /**
   * Following `next` from the head of a closed list visits the values in
   * arena order, comes back to the head after exactly `n` steps and not
   * earlier.
   */
  lemma Traversal<T>(l: List<T>)
    requires WellFormed(l)
    requires l.head.Some?
    ensures forall k :: 0 <= k < |l.nodes| ==> Walk(l, l.head.value, k) == k
    ensures forall k :: 0 <= k < |l.nodes| ==> l.nodes[Walk(l, l.head.value, k)].data == Values(l)[k]
    ensures forall k :: 0 < k < |l.nodes| ==> Walk(l, l.head.value, k) != l.head.value
    ensures Walk(l, l.head.value, |l.nodes|) == l.head.value
  {
    forall k | 0 <= k < |l.nodes|
      ensures Walk(l, 0, k) == k
    {
      WalkAhead(l, 0, k);
    }
    WalkFullTurn(l, 0);
  }

  /**
   * The node after the one `find` returns holds the reference successor of
   * `x`: the next value in traversal order, the head's value for the tail.
   */
  lemma FindThenNext<T>(l: List<T>, x: T)
    requires WellFormed(l)
    requires l.head.Some?
    ensures Find(l, x).Some? ==> Some(l.nodes[l.nodes[Find(l, x).value].next].data) == CycleSpec.Successor(Values(l), x)
    ensures Find(l, x).None? <==> CycleSpec.Successor(Values(l), x).None?
  {
  }
}
