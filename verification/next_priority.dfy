/**
 * `nextPriority`: the successor of a priority level in the shared cycle
 * low -> medium -> high -> low.
 */
module Priority {
  import opened Wrappers
  import CycleSpec
  import CircularLinkedList

  /** The priority levels, in the order they are appended. */
  const Priorities: seq<string> := ["low", "medium", "high"]

  /** `values.forEach(v => list.append(v))`: append each value, first to last. */
  function AppendAll<T>(l: CircularLinkedList.List<T>, values: seq<T>): (r: CircularLinkedList.List<T>)
    requires CircularLinkedList.WellFormed(l)
    ensures CircularLinkedList.WellFormed(r)
    ensures CircularLinkedList.Values(r) == CircularLinkedList.Values(l) + values
    ensures l.head.Some? ==> r.head == l.head
    decreases |values|
  {
    if |values| == 0 then l
    else AppendAll(CircularLinkedList.Append(l, values[0]), values[1..])
  }

  /** The module-level list, built once from `Priorities` on a fresh list. */
  function PriorityList(): (l: CircularLinkedList.List<string>)
    ensures CircularLinkedList.WellFormed(l)
    ensures l.head == Some(0)
    ensures CircularLinkedList.Values(l) == Priorities
  {
    AppendAll(CircularLinkedList.Empty(), Priorities)
  }

  /**
   * `nextPriority(current)`: find the node holding `current` and return the
   * data of the node it links to; `None` (JavaScript's `undefined`) when no
   * node holds `current`.
   */
  function NextPriority(current: string): (r: Option<string>)
    ensures r == CycleSpec.Successor(Priorities, current)
    ensures r.Some? ==> r.value in Priorities
    ensures r.None? <==> current !in Priorities
  {
    var l := PriorityList();
    match CircularLinkedList.Find(l, current)
    case None => None
    case Some(k) => Some(l.nodes[l.nodes[k].next].data)
  }

  /** Appending values one by one to a fresh list yields a cycle visiting them in order. */
  lemma {:induction false} CycleClosure<T>(values: seq<T>)
    requires |values| >= 1
    ensures var l := AppendAll(CircularLinkedList.Empty(), values);
      && l.head == Some(0)
      && (forall k :: 0 <= k < |values| ==> l.nodes[CircularLinkedList.Walk(l, 0, k)].data == values[k])
      && (forall k :: 0 < k < |values| ==> CircularLinkedList.Walk(l, 0, k) != 0)
      && CircularLinkedList.Walk(l, 0, |values|) == 0
  {
    var l := AppendAll(CircularLinkedList.Empty(), values);
    CircularLinkedList.Traversal(l);
    assert CircularLinkedList.Values(l) == values;
    forall k | 0 <= k < |values|
      ensures l.nodes[CircularLinkedList.Walk(l, 0, k)].data == values[k]
    {
      assert CircularLinkedList.Values(l)[k] == values[k];
    }
  }

  /** The levels step up: low is followed by medium, medium by high. */
  lemma NextPriorityChain()
    ensures NextPriority("low") == Some("medium")
    ensures NextPriority("medium") == Some("high")
  {
  }

  /** The highest level wraps round to the lowest. */
  lemma NextPriorityWraps()
    ensures NextPriority("high") == Some("low")
  {
  }

  /** An unknown level has no successor, rather than a default level. */
  lemma NextPriorityUnknown(current: string)
    requires current != "low" && current != "medium" && current != "high"
    ensures NextPriority(current) == None
  {
  }

  /**
   * Rotating any level three times brings it back, and never to itself
   * sooner: the seeded instance of `NextPriorityFullTurn`, read through
   * `NextPriority`.
   */
  lemma NextPriorityCycles(p: string)
    requires p in Priorities
    ensures NextPriority(p).Some? && NextPriority(p).value != p
    ensures NextPriority(NextPriority(p).value).Some? && NextPriority(NextPriority(p).value).value != p
    ensures NextPriority(NextPriority(NextPriority(p).value).value) == Some(p)
  {
    var i :| 0 <= i < |Priorities| && Priorities[i] == p;
    NextPriorityFullTurn(i);
    var q := NextPriority(p).value;
    var r := NextPriority(q).value;
    assert CycleSpec.Iterate(Priorities, p, 1) == CycleSpec.Iterate(Priorities, q, 0) == Some(q);
    assert CycleSpec.Iterate(Priorities, p, 2) == CycleSpec.Iterate(Priorities, q, 1) == Some(r);
    assert CycleSpec.Iterate(Priorities, p, 3) == CycleSpec.Iterate(Priorities, r, 1) == NextPriority(r);
  }

  /** The seeded levels are distinct, so rotation runs through all three before returning. */
  lemma {:induction false} NextPriorityFullTurn(i: nat)
    requires i < |Priorities|
    ensures CycleSpec.Iterate(Priorities, Priorities[i], 3) == Some(Priorities[i])
    ensures forall k :: 0 < k < 3 ==> CycleSpec.Iterate(Priorities, Priorities[i], k) != Some(Priorities[i])
  {
    assert CycleSpec.Distinct(Priorities);
    CycleSpec.IterateFullTurn(Priorities, i);
  }
}

