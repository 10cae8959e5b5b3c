# Cyclic priority rotation

A Dafny model of the priority utility of a small todo client: a circular
singly-linked list (`CircularLinkedList`, whose tail links back to `head`)
and `nextPriority`, which rotates a todo's priority through
low → medium → high → low using a list seeded once with those three levels.

The model has three layers:

- `CycleSpec` (cycle_spec.dfy) is the reference semantics. A cycle is the
  sequence of its values in traversal order from the head. `FirstIndex` is
  the first position holding a value. `Successor` is the value at the next
  position, where the last position wraps round to the first. `Iterate`
  applies `Successor` repeatedly. With distinct values, this passes through
  every value once before it returns to the start.
- `CircularLinkedList` (circular_linked_list.dfy) models the nodes
  themselves. Nodes live in an arena `nodes: seq<Node<T>>`, and a reference
  to a node is its index there. So the source's reference test `!==` becomes
  `!=` on indices, and `null` becomes `None`. The `while` loops of `append`
  and `find` are the tail-recursive functions `TailFrom` and `ScanFrom`.
  The closure invariant `WellFormed` says three things: `head` is node 0,
  node `k` links to node `(k + 1) % n`, and `head` is `None` exactly when
  there are no nodes. `Append` preserves it. `Traversal` shows that
  following `next` from `head` visits the values in order and returns to
  `head` after exactly `n` steps.
- `Priority` (next_priority.dfy) covers the rest. The module-level list is
  the pure function `PriorityList()`, built with `AppendAll` (the
  `forEach`). `NextPriority` follows the source: it calls `find`, then reads
  `data` of the found node's `next`. It is proved equal to the reference
  `Successor` over `["low", "medium", "high"]`.

`Option` (wrappers.dfy) stands for the source's `null` / `undefined`
results.

## Model

| member | source | states |
|---|---|---|
| CycleSpec.FirstIndex | src/utils/circularLinkedList.js:29-40 | reference search: the result is the least position holding `x`, and `None` exactly when `x` occurs nowhere |
| CycleSpec.Successor | src/utils/nextPriority.js:14-15 | reference successor: a result is always one of the cycle's values, and `None` exactly when the input is not in the cycle |
| CycleSpec.NextPosition | src/utils/circularLinkedList.js:24-25 | the position after `i` is `(i + 1) % n`, so the last position is followed by the first |
| CycleSpec.SuccessorStep | src/utils/nextPriority.js:14-15 | the successor of a value's first occurrence is its right neighbour when that occurrence is not the last position |
| CycleSpec.SuccessorWraps | src/utils/circularLinkedList.js:25 | the successor of the last value, when that value occurs nowhere earlier, is the first value, because the tail links to the head |
| CycleSpec.SuccessorSingleton | src/utils/circularLinkedList.js:16-18 | a one-value cycle is a self-loop: the value is its own successor |
| CycleSpec.SuccessorDistinct | src/utils/nextPriority.js:14-15 | when the values are distinct, the successor of `s[i]` is `s[(i + 1) % n]` for every position `i` |
| CycleSpec.SuccessorEarliestWins | src/utils/circularLinkedList.js:31-34 | with duplicate values, the earliest occurrence decides the successor, and later ones are hidden |
| CycleSpec.Iterate | src/utils/nextPriority.js:12-16 | repeated rotation: starting from a value of the cycle every step has a successor, and each value reached is in the cycle |
| CycleSpec.IterateAhead | src/utils/nextPriority.js:14-15 | with distinct values, `k` rotations from position `i` reach position `i + k` while that lies inside the sequence |
| CycleSpec.IterateToFirst | src/utils/circularLinkedList.js:25 | with distinct values, rotating from position `i` reaches the first value after `n - i` steps |
| CycleSpec.IterateCompose | src/utils/nextPriority.js:14-15 | `a` rotations followed by `b` rotations equal `a + b` rotations |
| CycleSpec.IterateFullTurn | src/utils/nextPriority.js:3-15 | with distinct values, rotation is one cycle through all values: each returns to itself after exactly `n` steps |
| CycleSpec.IterateNotSooner | src/utils/nextPriority.js:3-15 | with distinct values, fewer than `n` rotations never return a value to itself |
| CycleSpec.FirstIndexOfFirstOccurrence | src/utils/circularLinkedList.js:31-38 | a position with no earlier equal value is exactly what the search returns |
| CircularLinkedList.Empty | src/utils/circularLinkedList.js:9-11 | a new list has no head and no nodes, and it satisfies the closure invariant |
| CircularLinkedList.TailFrom | src/utils/circularLinkedList.js:20-23 | the walk of `append` from any node stops at the last node allocated, whose `next` is the head |
| CircularLinkedList.Append | src/utils/circularLinkedList.js:14-26 | on an empty list the result is one node linking to itself, with `head` on it; otherwise `head` is unchanged, only the old tail's `next` changes (to the new node), and the new node links to `head`; the values become old values + [x], and the cycle stays closed |
| CircularLinkedList.ScanFrom | src/utils/circularLinkedList.js:30-40 | the two-phase scan from a node returns the first node from there to the tail holding `x`, or `None` when none does; it compares one node per step, so it makes at most `n - current` comparisons |
| CircularLinkedList.Find | src/utils/circularLinkedList.js:29-40 | on a non-empty list `find` returns the first node in traversal order holding `x` (the earliest one when there are duplicates), and `None` exactly when no node holds `x`; this agrees with the reference `FirstIndex` |
| CircularLinkedList.FindAgreesWithFirstIndex | src/utils/circularLinkedList.js:31-40 | a result with the first-match properties equals the reference search, and is `None` exactly for absent values |
| CircularLinkedList.FindComparisonsBounded | src/utils/circularLinkedList.js:31-38 | `find` terminates after between 1 and `n` comparisons; a miss compares every node, the tail included, once |
| CircularLinkedList.WalkAhead | src/utils/circularLinkedList.js:21-22 | before the tail, each `next` step moves to the following node |
| CircularLinkedList.WalkToHead | src/utils/circularLinkedList.js:25 | from node `i`, `n - i` steps reach `head` |
| CircularLinkedList.WalkCompose | src/utils/circularLinkedList.js:21-22 | walking `a` steps and then `b` steps is the same as walking `a + b` steps |
| CircularLinkedList.WalkFullTurn | src/utils/circularLinkedList.js:14-26 | every node returns to itself after exactly `n` steps |
| CircularLinkedList.Traversal | src/utils/circularLinkedList.js:14-26 | from `head`, step `k` (for `k < n`) reaches node `k`, so every node is reachable in fewer than `n` steps, and holds the `k`-th appended value; `head` is not reached again before step `n` and is reached at step `n` |
| CircularLinkedList.FindThenNext | src/utils/nextPriority.js:14-15 | the data of the found node's `next` is the reference successor, and `find` misses exactly when there is no successor |
| Priority.AppendAll | src/utils/nextPriority.js:7-9 | appending values in order keeps the list closed, appends them after the existing values, and keeps an existing `head` |
| Priority.PriorityList | src/utils/nextPriority.js:3-9 | the shared list is closed, its head is the first node, and it holds low, medium, high in that order |
| Priority.NextPriority | src/utils/nextPriority.js:12-16 | `nextPriority` is the reference successor over the seeded levels: a result is always a seeded level, and `None` (`undefined`) is returned exactly for unknown input |
| Priority.CycleClosure | src/utils/circularLinkedList.js:14-26 | after appending `v1..vn` (n ≥ 1) to a new list, following `next` from `head` visits `v1..vn` in order and returns to `head` after exactly `n` steps |
| Priority.NextPriorityChain | src/utils/nextPriority.js:14-15 | low is followed by medium, and medium by high |
| Priority.NextPriorityWraps | src/utils/nextPriority.js:15 | high wraps round to low |
| Priority.NextPriorityUnknown | src/utils/nextPriority.js:14-15 | any string other than the three levels yields `None`, not an error and not a level |
| Priority.NextPriorityCycles | src/utils/nextPriority.js:3-15 | one or two rotations change every level, and three rotations bring it back; derived from `NextPriorityFullTurn` |
| Priority.NextPriorityFullTurn | src/utils/nextPriority.js:3-9 | the seeded levels are distinct, so repeated rotation visits all three and returns to the start after exactly three steps and not sooner |

## Left out

- The `console.log` call in `nextPriority` (src/utils/nextPriority.js:13) is console output and does not affect the result.
- The HTTP service wrappers (src/services/todo.service.js) are network I/O with no logic of their own.
- The page tests (src/pages/TodoPage/__tests__/TodoPage.spec.js) exercise rendering and mocked services, not the priority utility.
- The list is a value, not a heap. Nodes are arena indices, so aliasing and in-place mutation are not modelled. `Append` returns the updated list, and the module-level singleton is a pure function evaluated on demand.
- `find` on an empty list dereferences `null` and throws in the source. The model makes non-emptiness a precondition of `Find` and `ScanFrom` instead of modelling the exception.
- `===` is modelled as Dafny equality on the element type. Strings compare by value, as JavaScript strings do. JavaScript's special cases for `NaN` and for objects are not modelled.
- Priority.NextPriority: takes a string. A non-string argument never matches a seeded level, so the source returns `undefined` for it, as it does for an unknown string.
- The second `?.` in `priority?.next?.data` guards a `next` that is never `null` in a closed list. The model reads `next` directly.
- Idempotent construction needs no lemma. `PriorityList` is a pure function, so building the list again gives the same result.
- `ScanResult.comparisons` is a counter of the model's own. It exists only to state the bound on comparisons and has no counterpart in the source.
