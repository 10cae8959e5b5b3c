/**
 * Reference semantics of a closed cycle, independent of any linked nodes.
 *
 * A cycle is represented by the sequence of its values in traversal order
 * starting at the head; the successor of position `i` is position
 * `(i + 1) % |s|`, so the last value wraps round to the first.
 */
module CycleSpec {
  import opened Wrappers

  /** The position after `i` in a cycle of `n` positions: the last wraps round to the first. */
  function NextPosition(i: nat, n: nat): (j: nat)
    requires i < n
    ensures j < n
    ensures j == (i + 1) % n
  {
    if i + 1 < n then i + 1 else 0
  }

  /** The least index holding `x`, or `None` when `x` does not occur in `s`. */
  function FirstIndex<T(==)>(s: seq<T>, x: T): (r: Option<nat>)
    ensures r.Some? ==> r.value < |s| && s[r.value] == x
    ensures r.Some? ==> forall j :: 0 <= j < r.value ==> s[j] != x
    ensures r.None? <==> x !in s
  {
    if |s| == 0 then None
    else if s[0] == x then Some(0)
    else
      match FirstIndex(s[1..], x)
      case None => None
      case Some(i) => Some(i + 1)
  }

  /** The value that follows the first occurrence of `x` in the cycle `s`. */
  function Successor<T(==)>(s: seq<T>, x: T): (r: Option<T>)
    ensures r.Some? ==> r.value in s
    ensures r.None? <==> x !in s
  {
    match FirstIndex(s, x)
    case None => None
    case Some(i) => Some(s[NextPosition(i, |s|)])
  }

  /** No value occurs twice. */
  predicate Distinct<T(==)>(s: seq<T>)
  {
    forall i, j :: 0 <= i < j < |s| ==> s[i] != s[j]
  }

  /** Inside the sequence the successor of a first occurrence is its right neighbour. */
  lemma SuccessorStep<T>(s: seq<T>, i: nat)
    requires i + 1 < |s|
    requires forall j :: 0 <= j < i ==> s[j] != s[i]
    ensures Successor(s, s[i]) == Some(s[i + 1])
  {
  }

  /** The successor of the last value, if it occurs nowhere earlier, is the first value. */
  lemma SuccessorWraps<T>(s: seq<T>)
    requires |s| > 0
    requires forall j :: 0 <= j < |s| - 1 ==> s[j] != s[|s| - 1]
    ensures Successor(s, s[|s| - 1]) == Some(s[0])
  {
  }

  /** A one-value cycle is a self-loop. */
  lemma SuccessorSingleton<T>(v: T)
    ensures Successor([v], v) == Some(v)
  {
  }

  /** With distinct values, successor is rotation by one position. */
  lemma SuccessorDistinct<T>(s: seq<T>, i: nat)
    requires Distinct(s)
    requires i < |s|
    ensures Successor(s, s[i]) == Some(s[(i + 1) % |s|])
  {
  }

  /** With duplicates the earliest occurrence decides the successor. */
  lemma SuccessorEarliestWins<T>(s: seq<T>, i: nat, k: nat)
    requires i < k < |s|
    requires s[i] == s[k]
    requires forall j :: 0 <= j < i ==> s[j] != s[i]
    ensures Successor(s, s[k]) == Some(s[(i + 1) % |s|])
  {
  }

  /** `FirstIndex` finds exactly the first occurrence. */
  lemma FirstIndexOfFirstOccurrence<T>(s: seq<T>, i: nat)
    requires i < |s|
    requires forall j :: 0 <= j < i ==> s[j] != s[i]
    ensures FirstIndex(s, s[i]) == Some(i)
  {
  }

  /** The value reached from `x` after `k` successor steps, or `None` once a step finds no successor. */
  function Iterate<T(==)>(s: seq<T>, x: T, k: nat): (r: Option<T>)
    ensures r.Some? ==> r.value == x || r.value in s
    ensures x in s ==> r.Some?
    decreases k
  {
    if k == 0 then Some(x)
    else
      match Successor(s, x)
      case None => None
      case Some(y) => Iterate(s, y, k - 1)
  }

  /** With distinct values, `k` steps from position `i` reach position `i + k` while inside the sequence. */
  lemma {:induction false} IterateAhead<T>(s: seq<T>, i: nat, k: nat)
    requires Distinct(s)
    requires i + k < |s|
    ensures Iterate(s, s[i], k) == Some(s[i + k])
    decreases k
  {
    if k > 0 {
      SuccessorStep(s, i);
      IterateAhead(s, i + 1, k - 1);
    }
  }

  /** With distinct values, `|s| - i` steps from position `i` wrap round to the first value. */
  lemma {:induction false} IterateToFirst<T>(s: seq<T>, i: nat)
    requires Distinct(s)
    requires i < |s|
    ensures Iterate(s, s[i], |s| - i) == Some(s[0])
    decreases |s| - i
  {
    if i + 1 < |s| {
      SuccessorStep(s, i);
      IterateToFirst(s, i + 1);
    } else {
      SuccessorWraps(s);
    }
  }

  /** Stepping `a` times and then `b` times is stepping `a + b` times. */
  lemma {:induction false} IterateCompose<T>(s: seq<T>, x: T, a: nat, b: nat)
    requires Iterate(s, x, a).Some?
    ensures Iterate(s, x, a + b) == Iterate(s, Iterate(s, x, a).value, b)
    decreases a
  {
    if a > 0 {
      IterateCompose(s, Successor(s, x).value, a - 1, b);
    }
  }

  /**
   * With distinct values the successor relation is one cycle through all of
   * them: every value comes back to itself after exactly `|s|` steps and not
   * sooner.
   */
  lemma IterateFullTurn<T>(s: seq<T>, i: nat)
    requires Distinct(s)
    requires i < |s|
    ensures Iterate(s, s[i], |s|) == Some(s[i])
    ensures forall k :: 0 < k < |s| ==> Iterate(s, s[i], k) != Some(s[i])
  {
    IterateToFirst(s, i);
    IterateCompose(s, s[i], |s| - i, i);
    IterateAhead(s, 0, i);
    forall k | 0 < k < |s|
      ensures Iterate(s, s[i], k) != Some(s[i])
    {
      IterateNotSooner(s, i, k);
    }
  }

  /** With distinct values, fewer than `|s|` steps from position `i` land on a different value. */
  lemma IterateNotSooner<T>(s: seq<T>, i: nat, k: nat)
    requires Distinct(s)
    requires i < |s|
    requires 0 < k < |s|
    ensures Iterate(s, s[i], k) != Some(s[i])
  {
    if i + k < |s| {
      IterateAhead(s, i, k);
      assert s[i] != s[i + k];
    } else {
      var m := i + k - |s|;
      IterateToFirst(s, i);
      IterateCompose(s, s[i], |s| - i, m);
      IterateAhead(s, 0, m);
      assert s[m] != s[i];
    }
  }
}
