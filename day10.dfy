/**
 * Day 10 (part 1): machines whose buttons toggle indicator lights. A line
 * `[.##.] (3) (1,3) (2) {3,5,4,7}` describes the wanted light pattern, the
 * lights each button toggles and the joltage targets. Patterns are bit masks
 * (light i of L is bit L-1-i), and the fewest presses that light the wanted
 * pattern are found by a breadth-first search over all 2^L patterns.
 */
module Day10 {
  import opened Text
  import opened Sets

  datatype Machine = Machine(numLights: nat, goal: nat, masks: seq<nat>, wires: seq<seq<nat>>, joltage: seq<nat>)

  function Pow2(n: nat): (p: nat)
    ensures p >= 1
  {
    if n == 0 then 1 else 2 * Pow2(n - 1)
  }

  // ---------------------------------------------------------------------
  // Bit patterns as naturals

  /** Bitwise exclusive or. */
  function Xor(a: nat, b: nat): nat
    decreases a + b
  {
    if a == 0 then b
    else if b == 0 then a
    else 2 * Xor(a / 2, b / 2) + (a + b) % 2
  }

  /** Bitwise or. */
  function Or(a: nat, b: nat): nat
    decreases a + b
  {
    if a == 0 then b
    else if b == 0 then a
    else 2 * Or(a / 2, b / 2) + (if a % 2 == 1 || b % 2 == 1 then 1 else 0)
  }

  /** Bit `s` of `x` is set. */
  predicate Bit(x: nat, s: nat)
  {
    if s == 0 then x % 2 == 1 else Bit(x / 2, s - 1)
  }

  lemma ZeroHasNoBits(s: nat)
    ensures !Bit(0, s)
  {
  }

  /** Halving `2 * h + r` for a last bit `r`. */
  lemma Halves(h: nat, r: nat)
    requires r < 2
    ensures (2 * h + r) / 2 == h && (2 * h + r) % 2 == r
  {
  }

  lemma {:induction false} XorBit(a: nat, b: nat, s: nat)
    ensures Bit(Xor(a, b), s) <==> Bit(a, s) != Bit(b, s)
  {
    if a == 0 {
      ZeroHasNoBits(s);
    } else if b == 0 {
      ZeroHasNoBits(s);
    } else {
      Halves(Xor(a / 2, b / 2), (a + b) % 2);
      if s > 0 {
        XorBit(a / 2, b / 2, s - 1);
      }
    }
  }

  lemma {:induction false} OrBit(a: nat, b: nat, s: nat)
    ensures Bit(Or(a, b), s) <==> Bit(a, s) || Bit(b, s)
  {
    if a == 0 {
      ZeroHasNoBits(s);
    } else if b == 0 {
      ZeroHasNoBits(s);
    } else {
      Halves(Or(a / 2, b / 2), if a % 2 == 1 || b % 2 == 1 then 1 else 0);
      if s > 0 {
        OrBit(a / 2, b / 2, s - 1);
      }
    }
  }

  /** `Pow2(t)` has exactly bit `t` set. */
  lemma {:induction false} Pow2Bit(t: nat, s: nat)
    ensures Bit(Pow2(t), s) <==> s == t
  {
    if t == 0 {
      if s > 0 {
        ZeroHasNoBits(s - 1);
      }
    } else if s > 0 {
      Pow2Bit(t - 1, s - 1);
    }
  }

  lemma {:induction false} XorBelow(a: nat, b: nat, n: nat)
    requires a < Pow2(n) && b < Pow2(n)
    ensures Xor(a, b) < Pow2(n)
  {
    if a != 0 && b != 0 {
      XorBelow(a / 2, b / 2, n - 1);
    }
  }

  lemma {:induction false} OrBelow(a: nat, b: nat, n: nat)
    requires a < Pow2(n) && b < Pow2(n)
    ensures Or(a, b) < Pow2(n)
  {
    if a != 0 && b != 0 {
      OrBelow(a / 2, b / 2, n - 1);
    }
  }

  lemma {:induction false} Pow2Monotone(a: nat, b: nat)
    requires a < b
    ensures Pow2(a) < Pow2(b)
  {
    if a + 1 < b {
      Pow2Monotone(a, b - 1);
    }
  }

  // ---------------------------------------------------------------------
  // Pressing buttons

  /** Every press names a button. */
  predicate ValidPresses(masks: seq<nat>, presses: seq<nat>)
  {
    forall i :: 0 <= i < |presses| ==> presses[i] < |masks|
  }

  /** The lights after pressing the listed buttons in order, starting from all off. */
  function Pattern(masks: seq<nat>, presses: seq<nat>): nat
    requires ValidPresses(masks, presses)
  {
    if presses == [] then 0
    else Xor(Pattern(masks, presses[..|presses| - 1]), masks[presses[|presses| - 1]])
  }

  /** Some `k` presses light exactly the pattern `s`. */
  ghost predicate Reaches(masks: seq<nat>, s: nat, k: nat)
  {
    exists presses :: |presses| == k && ValidPresses(masks, presses) && Pattern(masks, presses) == s
  }

  /** `n` is the fewest presses (at least one) that light the machine's goal. */
  ghost predicate IsMinPresses(m: Machine, n: nat)
  {
    n >= 1 && Reaches(m.masks, m.goal, n) && forall k :: 1 <= k < n ==> !Reaches(m.masks, m.goal, k)
  }

  /** No non-empty sequence of presses lights the machine's goal. */
  ghost predicate Unreachable(m: Machine)
  {
    forall k :: k >= 1 ==> !Reaches(m.masks, m.goal, k)
  }

  /** Every button only toggles lights the machine has. */
  predicate MasksFit(m: Machine)
  {
    forall i :: 0 <= i < |m.masks| ==> m.masks[i] < Pow2(m.numLights)
  }

  lemma PressOnce(masks: seq<nat>, s: nat, k: nat, j: nat)
    requires Reaches(masks, s, k) && j < |masks|
    ensures Reaches(masks, Xor(s, masks[j]), k + 1)
  {
    var presses :| |presses| == k && ValidPresses(masks, presses) && Pattern(masks, presses) == s;
    var more := presses + [j];
    assert more[..|more| - 1] == presses;
    assert Pattern(masks, more) == Xor(s, masks[j]);
  }

  lemma {:induction false} PatternBelow(masks: seq<nat>, presses: seq<nat>, n: nat)
    requires ValidPresses(masks, presses)
    requires forall i :: 0 <= i < |masks| ==> masks[i] < Pow2(n)
    ensures Pattern(masks, presses) < Pow2(n)
  {
    if presses != [] {
      var pre := presses[..|presses| - 1];
      PatternBelow(masks, pre, n);
      XorBelow(Pattern(masks, pre), masks[presses[|presses| - 1]], n);
    }
  }

  // ---------------------------------------------------------------------
  // The breadth-first search. `queue` holds every (pattern, presses) pair
  // pushed so far; the entries before `head` have been popped.

  function States(queue: seq<(nat, nat)>): set<nat>
  {
    set i | 0 <= i < |queue| :: queue[i].0
  }

  /** Each queued pattern is in range and reachable in its recorded number of presses. */
  ghost predicate Sound(masks: seq<nat>, limit: nat, queue: seq<(nat, nat)>)
  {
    forall i :: 0 <= i < |queue| ==> queue[i].0 < limit && Reaches(masks, queue[i].0, queue[i].1)
  }

  /** No pattern is queued twice. */
  predicate Distinct(queue: seq<(nat, nat)>)
  {
    forall i, j :: 0 <= i < j < |queue| ==> queue[i].0 != queue[j].0
  }

  /** A pattern is marked visited exactly when it has been queued. */
  predicate Marks(queue: seq<(nat, nat)>, visited: seq<bool>)
  {
    forall v :: 0 <= v < |visited| ==> (visited[v] <==> v in States(queue))
  }

  /** Press counts never decrease along the queue, and rise by at most one past `head`. */
  predicate Levels(queue: seq<(nat, nat)>, head: nat)
  {
    && (forall i, j :: 0 <= i <= j < |queue| ==> queue[i].1 <= queue[j].1)
    && (head < |queue| ==> queue[|queue| - 1].1 <= queue[head].1 + 1)
  }

  /** Pattern `v` is queued with at most `d` presses. */
  predicate QueuedWithin(queue: seq<(nat, nat)>, v: nat, d: nat)
  {
    exists i :: 0 <= i < |queue| && queue[i].0 == v && queue[i].1 <= d
  }

  /** Pressing any of the first `n` buttons from `cur` (reached in `d` presses) misses the
      target, and lands on a pattern out of range or queued within `d + 1` presses. */
  predicate Expanded(masks: seq<nat>, target: nat, limit: nat, queue: seq<(nat, nat)>, cur: nat, d: nat, n: nat)
    requires n <= |masks|
  {
    forall j :: 0 <= j < n ==>
      && Xor(cur, masks[j]) != target
      && (Xor(cur, masks[j]) < limit ==> QueuedWithin(queue, Xor(cur, masks[j]), d + 1))
  }

  /** Every popped entry has been fully expanded. */
  predicate Closed(masks: seq<nat>, target: nat, limit: nat, queue: seq<(nat, nat)>, head: nat)
  {
    head <= |queue| && forall i :: 0 <= i < head ==> Expanded(masks, target, limit, queue, queue[i].0, queue[i].1, |masks|)
  }

  /** The invariant of the search loop. */
  ghost predicate Searching(masks: seq<nat>, target: nat, limit: nat, queue: seq<(nat, nat)>, head: nat, visited: seq<bool>)
  {
    && 1 <= |queue| && queue[0] == (0, 0) && |visited| == limit
    && Sound(masks, limit, queue) && Distinct(queue) && Marks(queue, visited)
    && Levels(queue, head) && Closed(masks, target, limit, queue, head)
  }

  /** Pattern `v` was queued, and popped, with at most `d` presses. */
  predicate PoppedWithin(queue: seq<(nat, nat)>, head: nat, v: nat, d: nat)
  {
    exists i :: 0 <= i < head && i < |queue| && queue[i].0 == v && queue[i].1 <= d
  }

  lemma QueuedWithinGrow(queue: seq<(nat, nat)>, e: (nat, nat), v: nat, d: nat)
    requires QueuedWithin(queue, v, d)
    ensures QueuedWithin(queue + [e], v, d)
  {
    var i :| 0 <= i < |queue| && queue[i].0 == v && queue[i].1 <= d;
    assert (queue + [e])[i] == queue[i];
  }

  lemma ExpandedGrow(masks: seq<nat>, target: nat, limit: nat, queue: seq<(nat, nat)>, e: (nat, nat), cur: nat, d: nat, n: nat)
    requires n <= |masks| && Expanded(masks, target, limit, queue, cur, d, n)
    ensures Expanded(masks, target, limit, queue + [e], cur, d, n)
  {
    forall j | 0 <= j < n && Xor(cur, masks[j]) < limit
      ensures QueuedWithin(queue + [e], Xor(cur, masks[j]), d + 1)
    {
      QueuedWithinGrow(queue, e, Xor(cur, masks[j]), d + 1);
    }
  }

  /**
   * Every pattern some presses light is queued with no more presses than that,
   * and already popped, provided the masks stay within `n` lights and the
   * presses are fewer than those of the entry at `head`.
   */
  lemma {:induction false} Complete(masks: seq<nat>, target: nat, n: nat, queue: seq<(nat, nat)>, head: nat, presses: seq<nat>)
    requires 1 <= |queue| && queue[0] == (0, 0)
    requires Levels(queue, head) && Closed(masks, target, Pow2(n), queue, head)
    requires forall i :: 0 <= i < |masks| ==> masks[i] < Pow2(n)
    requires ValidPresses(masks, presses)
    requires head < |queue| ==> |presses| < queue[head].1
    ensures PoppedWithin(queue, head, Pattern(masks, presses), |presses|)
  {
    if presses == [] {
      assert queue[0].0 == Pattern(masks, presses);
    } else {
      var k := |presses|;
      var pre := presses[..k - 1];
      Complete(masks, target, n, queue, head, pre);
      var i :| 0 <= i < head && i < |queue| && queue[i].0 == Pattern(masks, pre) && queue[i].1 <= k - 1;
      assert Expanded(masks, target, Pow2(n), queue, queue[i].0, queue[i].1, |masks|);
      PatternBelow(masks, presses, n);
      var v := Pattern(masks, presses);
      assert v == Xor(queue[i].0, masks[presses[k - 1]]);
      assert QueuedWithin(queue, v, queue[i].1 + 1);
      var idx :| 0 <= idx < |queue| && queue[idx].0 == v && queue[idx].1 <= queue[i].1 + 1;
    }
  }

  /** Non-empty presses, at most as many as those of the entry at `head`, miss the target. */
  lemma Misses(masks: seq<nat>, target: nat, n: nat, queue: seq<(nat, nat)>, head: nat, presses: seq<nat>)
    requires 1 <= |queue| && queue[0] == (0, 0)
    requires Levels(queue, head) && Closed(masks, target, Pow2(n), queue, head)
    requires forall i :: 0 <= i < |masks| ==> masks[i] < Pow2(n)
    requires ValidPresses(masks, presses) && 1 <= |presses|
    requires head < |queue| ==> |presses| <= queue[head].1
    ensures Pattern(masks, presses) != target
  {
    var k := |presses|;
    var pre := presses[..k - 1];
    PatternSnoc(masks, presses);
    Complete(masks, target, n, queue, head, pre);
    var i :| 0 <= i < head && i < |queue| && queue[i].0 == Pattern(masks, pre) && queue[i].1 <= k - 1;
    ClosedAt(masks, target, Pow2(n), queue, head, i);
    ExpandedMiss(masks, target, Pow2(n), queue, queue[i].0, queue[i].1, |masks|, presses[k - 1]);
  }

  /** The last press flips the pattern of the presses before it. */
  lemma PatternSnoc(masks: seq<nat>, presses: seq<nat>)
    requires ValidPresses(masks, presses) && 1 <= |presses|
    ensures ValidPresses(masks, presses[..|presses| - 1])
    ensures Pattern(masks, presses) == Xor(Pattern(masks, presses[..|presses| - 1]), masks[presses[|presses| - 1]])
  {
  }

  /** A popped entry has been expanded. */
  lemma ClosedAt(masks: seq<nat>, target: nat, limit: nat, queue: seq<(nat, nat)>, head: nat, i: nat)
    requires Closed(masks, target, limit, queue, head) && i < head
    ensures Expanded(masks, target, limit, queue, queue[i].0, queue[i].1, |masks|)
  {
  }

  /** An expanded button misses the target. */
  lemma ExpandedMiss(masks: seq<nat>, target: nat, limit: nat, queue: seq<(nat, nat)>, cur: nat, d: nat, n: nat, j: nat)
    requires n <= |masks| && Expanded(masks, target, limit, queue, cur, d, n) && j < n
    ensures Xor(cur, masks[j]) != target
  {
  }

  /** No non-empty presses, at most as many as those of the entry at `head`, light the target. */
  lemma NoShorter(masks: seq<nat>, target: nat, n: nat, queue: seq<(nat, nat)>, head: nat)
    requires 1 <= |queue| && queue[0] == (0, 0)
    requires Levels(queue, head) && Closed(masks, target, Pow2(n), queue, head)
    requires forall i :: 0 <= i < |masks| ==> masks[i] < Pow2(n)
    ensures forall k :: 1 <= k && (head < |queue| ==> k <= queue[head].1) ==> !Reaches(masks, target, k)
  {
    forall presses | 1 <= |presses| && (head < |queue| ==> |presses| <= queue[head].1) && ValidPresses(masks, presses)
      ensures Pattern(masks, presses) != target
    {
      Misses(masks, target, n, queue, head, presses);
    }
  }

  lemma StatesAppend(queue: seq<(nat, nat)>, e: (nat, nat))
    ensures States(queue + [e]) == States(queue) + {e.0}
  {
    var q := queue + [e];
    forall x | x in States(q)
      ensures x in States(queue) + {e.0}
    {
      var i :| 0 <= i < |q| && q[i].0 == x;
      if i < |queue| {
        assert queue[i].0 == x;
      }
    }
    forall x | x in States(queue)
      ensures x in States(q)
    {
      var i :| 0 <= i < |queue| && queue[i].0 == x;
      assert q[i].0 == x;
    }
    assert q[|queue|].0 == e.0;
  }

  lemma {:induction false} DistinctStates(queue: seq<(nat, nat)>)
    requires Distinct(queue)
    ensures |States(queue)| == |queue|
  {
    if queue != [] {
      var pre := queue[..|queue| - 1];
      DistinctStates(pre);
      StatesAppend(pre, queue[|queue| - 1]);
      assert pre + [queue[|queue| - 1]] == queue;
    }
  }

  /** Each pattern below `limit` is queued at most once, so at most `limit` entries are ever queued. */
  lemma QueueBounded(queue: seq<(nat, nat)>, limit: nat)
    requires Distinct(queue) && forall i :: 0 <= i < |queue| ==> queue[i].0 < limit
    ensures |queue| <= limit
  {
    DistinctStates(queue);
    SubsetSize(States(queue), Range(limit));
  }

  lemma PushSound(masks: seq<nat>, limit: nat, queue: seq<(nat, nat)>, e: (nat, nat))
    requires Sound(masks, limit, queue) && e.0 < limit && Reaches(masks, e.0, e.1)
    ensures Sound(masks, limit, queue + [e])
  {
    var q := queue + [e];
    forall i | 0 <= i < |q|
      ensures q[i].0 < limit && Reaches(masks, q[i].0, q[i].1)
    {
      if i < |queue| {
        assert q[i] == queue[i];
      }
    }
  }

  lemma PushDistinct(queue: seq<(nat, nat)>, e: (nat, nat))
    requires Distinct(queue) && e.0 !in States(queue)
    ensures Distinct(queue + [e])
  {
    var q := queue + [e];
    forall i, j | 0 <= i < j < |q|
      ensures q[i].0 != q[j].0
    {
      assert q[i] == queue[i];
      if j == |queue| {
        assert queue[i].0 in States(queue);
      } else {
        assert q[j] == queue[j];
      }
    }
  }

  lemma PushMarks(queue: seq<(nat, nat)>, visited: seq<bool>, e: (nat, nat))
    requires Marks(queue, visited) && e.0 < |visited|
    ensures Marks(queue + [e], visited[e.0 := true])
  {
    StatesAppend(queue, e);
  }

  lemma PushLevels(queue: seq<(nat, nat)>, head: nat, e: (nat, nat))
    requires Levels(queue, head) && head < |queue| && e.1 == queue[head].1 + 1
    ensures Levels(queue + [e], head)
  {
    var q := queue + [e];
    forall i, j | 0 <= i <= j < |q|
      ensures q[i].1 <= q[j].1
    {
      if j < |queue| {
        assert q[i] == queue[i] && q[j] == queue[j];
      } else if i < |queue| {
        assert q[i] == queue[i];
        assert queue[i].1 <= queue[|queue| - 1].1;
      }
    }
  }

  lemma PushClosed(masks: seq<nat>, target: nat, limit: nat, queue: seq<(nat, nat)>, head: nat, e: (nat, nat))
    requires Closed(masks, target, limit, queue, head)
    ensures Closed(masks, target, limit, queue + [e], head)
  {
    var q := queue + [e];
    forall i | 0 <= i < head
      ensures Expanded(masks, target, limit, q, q[i].0, q[i].1, |masks|)
    {
      assert q[i] == queue[i];
      ExpandedGrow(masks, target, limit, queue, e, queue[i].0, queue[i].1, |masks|);
    }
  }

  /** Queueing a fresh pattern reached in one more press keeps the search invariant. */
  lemma Push(masks: seq<nat>, target: nat, limit: nat, queue: seq<(nat, nat)>, head: nat, visited: seq<bool>, j: nat)
    requires Searching(masks, target, limit, queue, head, visited) && head < |queue|
    requires j < |masks| && Expanded(masks, target, limit, queue, queue[head].0, queue[head].1, j)
    requires Xor(queue[head].0, masks[j]) != target
    requires Xor(queue[head].0, masks[j]) < limit && !visited[Xor(queue[head].0, masks[j])]
    ensures var e := (Xor(queue[head].0, masks[j]), queue[head].1 + 1);
      && Searching(masks, target, limit, queue + [e], head, visited[e.0 := true])
      && Expanded(masks, target, limit, queue + [e], queue[head].0, queue[head].1, j + 1)
  {
    var cur := queue[head].0;
    var d := queue[head].1;
    var e := (Xor(cur, masks[j]), d + 1);
    var q := queue + [e];
    PressOnce(masks, cur, d, j);
    PushSound(masks, limit, queue, e);
    PushDistinct(queue, e);
    PushMarks(queue, visited, e);
    PushLevels(queue, head, e);
    PushClosed(masks, target, limit, queue, head, e);
    assert q[0] == queue[0] && q[head] == queue[head];
    assert QueuedWithin(q, e.0, d + 1) by {
      assert q[|queue|] == e;
    }
    ExpandedGrow(masks, target, limit, queue, e, cur, d, j);
  }

  /** A pattern out of range or already queued needs no new entry. */
  lemma Skip(masks: seq<nat>, target: nat, limit: nat, queue: seq<(nat, nat)>, head: nat, visited: seq<bool>, j: nat)
    requires Searching(masks, target, limit, queue, head, visited) && head < |queue|
    requires j < |masks| && Expanded(masks, target, limit, queue, queue[head].0, queue[head].1, j)
    requires Xor(queue[head].0, masks[j]) != target
    requires Xor(queue[head].0, masks[j]) < limit ==> visited[Xor(queue[head].0, masks[j])]
    ensures Expanded(masks, target, limit, queue, queue[head].0, queue[head].1, j + 1)
  {
    var cur, d := queue[head].0, queue[head].1;
    var v := Xor(cur, masks[j]);
    if v < limit {
      assert Marks(queue, visited) && Levels(queue, head) && |visited| == limit;
      MarkedQueued(queue, visited, head, v);
    }
    ExpandedStep(masks, target, limit, queue, cur, d, j);
  }

  /** A pattern marked visited is queued within one press of the entry at `head`. */
  lemma MarkedQueued(queue: seq<(nat, nat)>, visited: seq<bool>, head: nat, v: nat)
    requires Marks(queue, visited) && Levels(queue, head) && head < |queue|
    requires v < |visited| && visited[v]
    ensures QueuedWithin(queue, v, queue[head].1 + 1)
  {
    assert v in States(queue);
    var i :| 0 <= i < |queue| && queue[i].0 == v;
    assert queue[i].1 <= queue[|queue| - 1].1;
  }

  /** Button `j` from `cur` misses the target and lands out of range or on a
      queued pattern: the first `j + 1` buttons are expanded. */
  lemma ExpandedStep(masks: seq<nat>, target: nat, limit: nat, queue: seq<(nat, nat)>, cur: nat, d: nat, j: nat)
    requires j < |masks| && Expanded(masks, target, limit, queue, cur, d, j)
    requires Xor(cur, masks[j]) != target
    requires Xor(cur, masks[j]) < limit ==> QueuedWithin(queue, Xor(cur, masks[j]), d + 1)
    ensures Expanded(masks, target, limit, queue, cur, d, j + 1)
  {
  }

  /** Once every button has been tried from the entry at `head`, it counts as popped. */
  lemma Pop(masks: seq<nat>, target: nat, limit: nat, queue: seq<(nat, nat)>, head: nat, visited: seq<bool>)
    requires Searching(masks, target, limit, queue, head, visited) && head < |queue|
    requires Expanded(masks, target, limit, queue, queue[head].0, queue[head].1, |masks|)
    ensures Searching(masks, target, limit, queue, head + 1, visited)
  {
    if head + 1 < |queue| {
      assert queue[head].1 <= queue[head + 1].1;
    }
  }

  /**
   * Presses button `j` from the entry at `head`: reports whether that lights
   * the target, and otherwise queues the new pattern if it is in range and fresh.
   */
  method TryButton(masks: seq<nat>, target: nat, visited: array<bool>, queue: seq<(nat, nat)>, head: nat, j: nat)
    returns (found: bool, queue': seq<(nat, nat)>)
    requires head < |queue| && Searching(masks, target, visited.Length, queue, head, visited[..])
    requires j < |masks| && Expanded(masks, target, visited.Length, queue, queue[head].0, queue[head].1, j)
    modifies visited
    ensures found <==> Xor(queue[head].0, masks[j]) == target
    ensures !found ==> head < |queue'| && queue'[head] == queue[head]
    ensures !found ==> Searching(masks, target, visited.Length, queue', head, visited[..])
    ensures !found ==> Expanded(masks, target, visited.Length, queue', queue[head].0, queue[head].1, j + 1)
  {
    var next := Xor(queue[head].0, masks[j]);
    if next == target {
      return true, queue;
    }
    found := false;
    if next < visited.Length && !visited[next] {
      Push(masks, target, visited.Length, queue, head, visited[..], j);
      visited[next] := true;
      var e: (nat, nat) := (next, queue[head].1 + 1);
      queue' := queue + [e];
    } else {
      Skip(masks, target, visited.Length, queue, head, visited[..], j);
      queue' := queue;
    }
  }

  /**
   * Tries every button from the entry at `head`: reports whether one of them
   * lights the target, and otherwise queues each fresh in-range pattern.
   */
  method Expand(masks: seq<nat>, target: nat, visited: array<bool>, queue: seq<(nat, nat)>, head: nat)
    returns (found: bool, queue': seq<(nat, nat)>)
    requires head < |queue| && Searching(masks, target, visited.Length, queue, head, visited[..])
    modifies visited
    ensures found ==> exists j :: 0 <= j < |masks| && Xor(queue[head].0, masks[j]) == target
    ensures !found ==> Searching(masks, target, visited.Length, queue', head + 1, visited[..])
  {
    queue' := queue;
    for j := 0 to |masks|
      invariant head < |queue'| && queue'[head] == queue[head]
      invariant Searching(masks, target, visited.Length, queue', head, visited[..])
      invariant Expanded(masks, target, visited.Length, queue', queue[head].0, queue[head].1, j)
    {
      found, queue' := TryButton(masks, target, visited, queue', head, j);
      if found {
        return;
      }
    }
    Pop(masks, target, visited.Length, queue', head, visited[..]);
    found := false;
  }

  /** The search starts with only the all-off pattern queued and marked. */
  lemma Start(masks: seq<nat>, target: nat, limit: nat, visited: seq<bool>)
    requires |visited| == limit >= 1 && visited[0]
    requires forall v :: 1 <= v < limit ==> !visited[v]
    ensures Searching(masks, target, limit, [(0, 0)], 0, visited)
  {
    assert Reaches(masks, 0, 0) by {
      assert ValidPresses(masks, []) && Pattern(masks, []) == 0;
    }
    StatesAppend([], (0, 0));
    assert [] + [(0, 0)] == [(0, 0)];
  }

  /** A button that lights the goal from the entry at `head` gives the answer. */
  lemma Found(m: Machine, queue: seq<(nat, nat)>, head: nat, visited: seq<bool>, j: nat)
    requires Searching(m.masks, m.goal, Pow2(m.numLights), queue, head, visited) && head < |queue|
    requires j < |m.masks| && Xor(queue[head].0, m.masks[j]) == m.goal
    ensures Reaches(m.masks, m.goal, queue[head].1 + 1)
    ensures MasksFit(m) ==> IsMinPresses(m, queue[head].1 + 1)
  {
    PressOnce(m.masks, queue[head].0, queue[head].1, j);
    if MasksFit(m) {
      NoShorter(m.masks, m.goal, m.numLights, queue, head);
    }
  }

  /** A search that runs out of entries proves the goal unreachable. */
  lemma Exhausted(m: Machine, queue: seq<(nat, nat)>, visited: seq<bool>)
    requires Searching(m.masks, m.goal, Pow2(m.numLights), queue, |queue|, visited)
    ensures MasksFit(m) ==> Unreachable(m)
  {
    if MasksFit(m) {
      NoShorter(m.masks, m.goal, m.numLights, queue, |queue|);
    }
  }

  /**
   * The fewest button presses that light the machine's goal pattern, by a
   * breadth-first search from all lights off; None when the search runs out
   * of patterns. Only patterns below 2^numLights are queued.
   */
  method MinLightingPresses(m: Machine) returns (r: Option<nat>)
    requires m.numLights < 64
    ensures r.Some? ==> r.value >= 1 && Reaches(m.masks, m.goal, r.value)
    ensures MasksFit(m) && r.Some? ==> IsMinPresses(m, r.value)
    ensures MasksFit(m) && r.None? ==> Unreachable(m)
  {
    var limit := Pow2(m.numLights);
    var visited := new bool[limit](_ => false);
    var queue := [(0, 0)];
    visited[0] := true;
    Start(m.masks, m.goal, limit, visited[..]);
    var head := 0;
    while head < |queue|
      invariant visited.Length == limit
      invariant Searching(m.masks, m.goal, limit, queue, head, visited[..])
      invariant |queue| <= limit
      decreases limit - head
    {
      ghost var before := queue;
      ghost var marks := visited[..];
      var found, next := Expand(m.masks, m.goal, visited, queue, head);
      if found {
        ghost var j :| 0 <= j < |m.masks| && Xor(before[head].0, m.masks[j]) == m.goal;
        Found(m, before, head, marks, j);
        return Some(queue[head].1 + 1);
      }
      queue := next;
      head := head + 1;
      QueueBounded(queue, limit);
    }
    Exhausted(m, queue, visited[..]);
    return None;
  }

  // ---------------------------------------------------------------------
  // Part 1

  function Sum(xs: seq<nat>): nat
  {
    if xs == [] then 0 else Sum(xs[..|xs| - 1]) + xs[|xs| - 1]
  }

  /** `n` presses light the machine's goal, and are the fewest when its buttons fit its lights. */
  ghost predicate Answers(m: Machine, n: nat)
  {
    n >= 1 && Reaches(m.masks, m.goal, n) && (MasksFit(m) ==> IsMinPresses(m, n))
  }

  /**
   * The sum over all machines of the fewest presses lighting each goal. None
   * when a machine has 64 or more lights (its pattern count overflows) or its
   * search finds no answer.
   */
  method SolvePart1(machines: seq<Machine>) returns (r: Option<nat>, ghost presses: seq<nat>)
    ensures r.Some? ==> |presses| == |machines| && r.value == Sum(presses)
    ensures r.Some? ==> forall i :: 0 <= i < |machines| ==> Answers(machines[i], presses[i])
    ensures r.None? ==> exists i :: 0 <= i < |machines| && (machines[i].numLights >= 64 || (MasksFit(machines[i]) ==> Unreachable(machines[i])))
  {
    var total := 0;
    presses := [];
    for i := 0 to |machines|
      invariant |presses| == i && total == Sum(presses)
      invariant forall k :: 0 <= k < i ==> Answers(machines[k], presses[k])
    {
      if machines[i].numLights >= 64 {
        return None, presses;
      }
      var n := MinLightingPresses(machines[i]);
      if n.None? {
        return None, presses;
      }
      assert (presses + [n.value])[..i] == presses;
      presses := presses + [n.value];
      total := total + n.value;
    }
    return Some(total), presses;
  }

  // ---------------------------------------------------------------------
  // Input

  /** `s` without its leading run of `c`. */
  function TrimStartMatches(s: string, c: char): (r: string)
    ensures |r| <= |s| && r == s[|s| - |r|..]
    ensures forall i :: 0 <= i < |s| - |r| ==> s[i] == c
    ensures r == [] || r[0] != c
  {
    if s != [] && s[0] == c then TrimStartMatches(s[1..], c) else s
  }

  /** `s` without its trailing run of `c`. */
  function TrimEndMatches(s: string, c: char): (r: string)
    ensures |r| <= |s| && r == s[..|r|]
    ensures forall i :: |r| <= i < |s| ==> s[i] == c
    ensures r == [] || r[|r| - 1] != c
  {
    if s != [] && s[|s| - 1] == c then TrimEndMatches(s[..|s| - 1], c) else s
  }

  /** A field, trimmed, as an unsigned number. */
  function ParseField(field: string): Option<nat>
  {
    ParseUnsigned(Trim(field))
  }

  /**
   * The goal mask after the first `k` lights: light i, when `#`, sets bit
   * L-1-i. None once a lit light would need a shift of 16 or more, which
   * overflows the 16-bit mask.
   */
  function GoalPrefix(lights: string, k: nat): Option<nat>
    requires k <= |lights|
  {
    if k == 0 then Some(0)
    else match GoalPrefix(lights, k - 1)
      case None => None
      case Some(g) =>
        if lights[k - 1] != '#' then Some(g)
        else if |lights| - k >= 16 then None
        else Some(Or(g, Pow2(|lights| - k)))
  }

  /**
   * The mask of the first `k` wires of a button on a machine with `n` lights:
   * wire w sets bit n-1-w. None once a wire is not one of the lights (the
   * subtraction underflows) or would need a shift of 16 or more.
   */
  function MaskPrefix(wires: seq<nat>, n: nat, k: nat): Option<nat>
    requires k <= |wires|
  {
    if k == 0 then Some(0)
    else match MaskPrefix(wires, n, k - 1)
      case None => None
      case Some(mask) =>
        if wires[k - 1] >= n || n - wires[k - 1] - 1 >= 16 then None
        else Some(Or(mask, Pow2(n - wires[k - 1] - 1)))
  }

  /** Setting bit `t < n` keeps a pattern below 2^n. */
  lemma SetBitBelow(g: nat, t: nat, n: nat)
    requires g < Pow2(n) && t < n
    ensures Or(g, Pow2(t)) < Pow2(n)
  {
    Pow2Monotone(t, n);
    OrBelow(g, Pow2(t), n);
  }

  lemma GoalNoneStays(lights: string, k: nat)
    requires k <= |lights| && GoalPrefix(lights, k).None?
    ensures GoalPrefix(lights, |lights|).None?
    decreases |lights| - k
  {
    if k < |lights| {
      GoalNoneStays(lights, k + 1);
    }
  }

  lemma MaskNoneStays(wires: seq<nat>, n: nat, k: nat)
    requires k <= |wires| && MaskPrefix(wires, n, k).None?
    ensures MaskPrefix(wires, n, |wires|).None?
    decreases |wires| - k
  {
    if k < |wires| {
      MaskNoneStays(wires, n, k + 1);
    }
  }

  /** Building the goal fails exactly when a lit light would need a shift of 16 or more. */
  lemma {:induction false} GoalFails(lights: string, k: nat)
    requires k <= |lights|
    ensures GoalPrefix(lights, k).None? <==> exists i :: 0 <= i < k && lights[i] == '#' && |lights| - 1 - i >= 16
  {
    if k > 0 {
      GoalFails(lights, k - 1);
    }
  }

  /** One light's step in building the goal. */
  lemma GoalStep(lights: string, k: nat)
    requires 0 < k <= |lights| && GoalPrefix(lights, k).Some?
    ensures GoalPrefix(lights, k - 1).Some?
    ensures lights[k - 1] == '#' ==> |lights| - k < 16 && GoalPrefix(lights, k).value == Or(GoalPrefix(lights, k - 1).value, Pow2(|lights| - k))
    ensures lights[k - 1] != '#' ==> GoalPrefix(lights, k).value == GoalPrefix(lights, k - 1).value
  {
  }

  /** The goal has no bit at L or above, and none at 16 or above. */
  lemma {:induction false} GoalBelow(lights: string, k: nat)
    requires k <= |lights| && GoalPrefix(lights, k).Some?
    ensures GoalPrefix(lights, k).value < Pow2(|lights|)
    ensures GoalPrefix(lights, k).value < Pow2(16)
  {
    if k > 0 {
      GoalStep(lights, k);
      GoalBelow(lights, k - 1);
      var g := GoalPrefix(lights, k - 1).value;
      var t := |lights| - k;
      if lights[k - 1] == '#' {
        SetBitBelow(g, t, |lights|);
        SetBitBelow(g, t, 16);
      }
    }
  }

  /** The goal has bit L-1-i set exactly for the lit lights i. */
  lemma {:induction false} GoalBit(lights: string, k: nat, s: nat)
    requires k <= |lights| && GoalPrefix(lights, k).Some?
    ensures Bit(GoalPrefix(lights, k).value, s) <==> s < |lights| && |lights| - 1 - s < k && lights[|lights| - 1 - s] == '#'
  {
    if k == 0 {
      ZeroHasNoBits(s);
    } else {
      GoalStep(lights, k);
      GoalBit(lights, k - 1, s);
      var L := |lights|;
      var g := GoalPrefix(lights, k - 1).value;
      var lit := s < L && L - 1 - s < k - 1 && lights[L - 1 - s] == '#';
      assert Bit(g, s) == lit;
      if lights[k - 1] == '#' {
        OrBit(g, Pow2(L - k), s);
        Pow2Bit(L - k, s);
        assert Bit(GoalPrefix(lights, k).value, s) <==> lit || s == L - k;
      } else {
        assert Bit(GoalPrefix(lights, k).value, s) == lit;
      }
    }
  }

  lemma GoalBits(lights: string)
    requires GoalPrefix(lights, |lights|).Some?
    ensures forall s: nat :: Bit(GoalPrefix(lights, |lights|).value, s) <==> s < |lights| && lights[|lights| - 1 - s] == '#'
  {
    forall s: nat
      ensures Bit(GoalPrefix(lights, |lights|).value, s) <==> s < |lights| && lights[|lights| - 1 - s] == '#'
    {
      GoalBit(lights, |lights|, s);
    }
  }

  /** Building a mask fails exactly when a wire is not a light or would need a shift of 16 or more. */
  lemma {:induction false} MaskFails(wires: seq<nat>, n: nat, k: nat)
    requires k <= |wires|
    ensures MaskPrefix(wires, n, k).None? <==> exists i :: 0 <= i < k && (wires[i] >= n || n - 1 - wires[i] >= 16)
  {
    if k > 0 {
      MaskFails(wires, n, k - 1);
    }
  }

  /** One wire's step in building a mask. */
  lemma MaskStep(wires: seq<nat>, n: nat, k: nat)
    requires 0 < k <= |wires| && MaskPrefix(wires, n, k).Some?
    ensures MaskPrefix(wires, n, k - 1).Some?
    ensures wires[k - 1] < n && n - wires[k - 1] - 1 < 16
    ensures MaskPrefix(wires, n, k).value == Or(MaskPrefix(wires, n, k - 1).value, Pow2(n - wires[k - 1] - 1))
  {
  }

  /** A button's mask has no bit at n or above, and none at 16 or above. */
  lemma {:induction false} MaskBelow(wires: seq<nat>, n: nat, k: nat)
    requires k <= |wires| && MaskPrefix(wires, n, k).Some?
    ensures MaskPrefix(wires, n, k).value < Pow2(n)
    ensures MaskPrefix(wires, n, k).value < Pow2(16)
  {
    if k > 0 {
      MaskStep(wires, n, k);
      MaskBelow(wires, n, k - 1);
      var mask := MaskPrefix(wires, n, k - 1).value;
      SetBitBelow(mask, n - wires[k - 1] - 1, n);
      SetBitBelow(mask, n - wires[k - 1] - 1, 16);
    }
  }

  /** A button's mask has bit n-1-w set exactly for its wires w. */
  lemma {:induction false} MaskBit(wires: seq<nat>, n: nat, k: nat, s: nat)
    requires k <= |wires| && MaskPrefix(wires, n, k).Some?
    ensures Bit(MaskPrefix(wires, n, k).value, s) <==> exists i :: 0 <= i < k && s == n - 1 - wires[i]
  {
    if k == 0 {
      ZeroHasNoBits(s);
    } else {
      MaskStep(wires, n, k);
      MaskBit(wires, n, k - 1, s);
      OrBit(MaskPrefix(wires, n, k - 1).value, Pow2(n - wires[k - 1] - 1), s);
      Pow2Bit(n - wires[k - 1] - 1, s);
      if s == n - 1 - wires[k - 1] {
        assert exists i :: 0 <= i < k && s == n - 1 - wires[i];
      } else {
        assert (exists i :: 0 <= i < k && s == n - 1 - wires[i]) <==> (exists i :: 0 <= i < k - 1 && s == n - 1 - wires[i]);
      }
    }
  }

  /** `mask` has bit n-1-w set exactly for the wires w of `wires`. */
  ghost predicate Wired(mask: nat, wires: seq<nat>, n: nat)
  {
    forall s: nat :: Bit(mask, s) <==> exists i :: 0 <= i < |wires| && s == n - 1 - wires[i]
  }

  lemma MaskBits(wires: seq<nat>, n: nat)
    requires MaskPrefix(wires, n, |wires|).Some?
    ensures Wired(MaskPrefix(wires, n, |wires|).value, wires, n)
  {
    forall s: nat
      ensures Bit(MaskPrefix(wires, n, |wires|).value, s) <==> exists i :: 0 <= i < |wires| && s == n - 1 - wires[i]
    {
      MaskBit(wires, n, |wires|, s);
    }
  }

  /** Builds the goal mask light by light. */
  method LightingGoal(lights: string) returns (goal: Option<nat>)
    ensures goal == GoalPrefix(lights, |lights|)
  {
    var g := 0;
    for i := 0 to |lights|
      invariant GoalPrefix(lights, i) == Some(g)
    {
      if lights[i] == '#' {
        if |lights| - i - 1 >= 16 {
          GoalNoneStays(lights, i + 1);
          return None;
        }
        g := Or(g, Pow2(|lights| - i - 1));
      }
    }
    return Some(g);
  }

  /** Builds a button's mask wire by wire. */
  method ButtonMask(wires: seq<nat>, n: nat) returns (mask: Option<nat>)
    ensures mask == MaskPrefix(wires, n, |wires|)
  {
    var m := 0;
    for i := 0 to |wires|
      invariant MaskPrefix(wires, n, i) == Some(m)
    {
      if wires[i] >= n || n - wires[i] - 1 >= 16 {
        MaskNoneStays(wires, n, i + 1);
        return None;
      }
      m := Or(m, Pow2(n - wires[i] - 1));
    }
    return Some(m);
  }

  /** One button: the mask of the wires listed before its `)`, and those wires. */
  function ButtonOf(segment: string, n: nat): Option<(nat, seq<nat>)>
  {
    match AllSome(Split(Split(segment, ')')[0], ','), ParseField)
    case None => None
    case Some(wires) =>
      match MaskPrefix(wires, n, |wires|)
      case None => None
      case Some(mask) => Some((mask, wires))
  }

  /** Reads a button of a machine with `n` lights. */
  function ButtonReader(n: nat): string -> Option<(nat, seq<nat>)>
  {
    s => ButtonOf(s, n)
  }

  /** The buttons of a machine with `n` lights, one per segment. */
  function ButtonsOf(segments: seq<string>, n: nat): Option<seq<(nat, seq<nat>)>>
  {
    AllSome(segments, ButtonReader(n))
  }

  function Masks(buttons: seq<(nat, seq<nat>)>): (masks: seq<nat>)
    ensures |masks| == |buttons| && forall i :: 0 <= i < |buttons| ==> masks[i] == buttons[i].0
  {
    seq(|buttons|, i requires 0 <= i < |buttons| => buttons[i].0)
  }

  function Wires(buttons: seq<(nat, seq<nat>)>): (wires: seq<seq<nat>>)
    ensures |wires| == |buttons| && forall i :: 0 <= i < |buttons| ==> wires[i] == buttons[i].1
  {
    seq(|buttons|, i requires 0 <= i < |buttons| => buttons[i].1)
  }

  lemma MasksWiresSnoc(buttons: seq<(nat, seq<nat>)>, button: (nat, seq<nat>))
    ensures Masks(buttons + [button]) == Masks(buttons) + [button.0]
    ensures Wires(buttons + [button]) == Wires(buttons) + [button.1]
  {
    var bs := buttons + [button];
    assert forall i :: 0 <= i < |buttons| ==> bs[i] == buttons[i];
    assert Masks(bs) == Masks(buttons) + [button.0];
  }

  /** The light diagram (without its `[`), the button text and the joltage text of a line. */
  function PartsOf(line: string): Option<(string, string, string)>
  {
    match SplitOnce(line, '{')
    case None => None
    case Some((rest, joltagePart)) =>
      match SplitOnce(rest, ']')
      case None => None
      case Some((lightsPart, buttonsPart)) => Some((TrimStartMatches(lightsPart, '['), buttonsPart, joltagePart))
  }

  /** The machine a line describes; None where reading it would panic. */
  function MachineOf(line: string): Option<Machine>
  {
    match PartsOf(line)
    case None => None
    case Some((lights, buttonsPart, joltagePart)) =>
      match (GoalPrefix(lights, |lights|), AllSome(Split(TrimEndMatches(joltagePart, '}'), ','), ParseField), ButtonsOf(Split(buttonsPart, '(')[1..], |lights|))
      case (Some(goal), Some(joltage), Some(buttons)) => Some(Machine(|lights|, goal, Masks(buttons), Wires(buttons), joltage))
      case _ => None
  }

  /** What a machine read from a line is made of. */
  lemma MachineParts(line: string)
    requires MachineOf(line).Some?
    ensures PartsOf(line).Some?
    ensures var m := MachineOf(line).value; var lights := PartsOf(line).value.0;
      var buttons := ButtonsOf(Split(PartsOf(line).value.1, '(')[1..], |lights|);
      && m.numLights == |lights|
      && GoalPrefix(lights, |lights|) == Some(m.goal)
      && buttons.Some? && m.masks == Masks(buttons.value) && m.wires == Wires(buttons.value)
  {
  }

  /**
   * A machine read from a line has one light per diagram character, and its
   * goal, below 2^L, has bit L-1-i set exactly for the lit characters i.
   */
  lemma MachineGoal(line: string)
    requires MachineOf(line).Some?
    ensures PartsOf(line).Some?
    ensures var m := MachineOf(line).value; var lights := PartsOf(line).value.0;
      && m.numLights == |lights| && m.goal < Pow2(m.numLights)
      && forall s: nat :: Bit(m.goal, s) <==> s < |lights| && lights[|lights| - 1 - s] == '#'
  {
    MachineParts(line);
    var lights := PartsOf(line).value.0;
    GoalBelow(lights, |lights|);
    GoalBits(lights);
  }

  /**
   * Each button read for `n` lights has bit n-1-w of its mask set exactly for
   * its wires w, so its mask is below 2^n.
   */
  lemma ButtonsFit(segments: seq<string>, n: nat)
    requires ButtonsOf(segments, n).Some?
    ensures var buttons := ButtonsOf(segments, n).value;
      forall i | 0 <= i < |buttons| :: buttons[i].0 < Pow2(n) && Wired(buttons[i].0, buttons[i].1, n)
  {
    var buttons := ButtonsOf(segments, n).value;
    AllSomeEach(segments, ButtonReader(n));
    forall i | 0 <= i < |buttons|
      ensures buttons[i].0 < Pow2(n) && Wired(buttons[i].0, buttons[i].1, n)
    {
      assert ButtonOf(segments[i], n) == Some(buttons[i]);
      MaskBelow(buttons[i].1, n, |buttons[i].1|);
      MaskBits(buttons[i].1, n);
    }
  }

  /**
   * Each button of a machine read from a line has bit L-1-w of its mask set
   * exactly for its wires w, so every mask fits the lights.
   */
  lemma MachineButtons(line: string)
    requires MachineOf(line).Some?
    ensures var m := MachineOf(line).value;
      && |m.masks| == |m.wires| && MasksFit(m)
      && forall i :: 0 <= i < |m.masks| ==> Wired(m.masks[i], m.wires[i], m.numLights)
  {
    MachineParts(line);
    var m := MachineOf(line).value;
    var lights := PartsOf(line).value.0;
    var segments := Split(PartsOf(line).value.1, '(')[1..];
    var buttons := ButtonsOf(segments, |lights|).value;
    ButtonsFit(segments, |lights|);
    forall i | 0 <= i < |m.masks|
      ensures m.masks[i] < Pow2(m.numLights) && Wired(m.masks[i], m.wires[i], m.numLights)
    {
      assert m.masks[i] == buttons[i].0 && m.wires[i] == buttons[i].1;
    }
  }

  /** Reads the buttons one segment at a time, building each mask wire by wire. */
  method ReadButtons(segments: seq<string>, n: nat) returns (r: Option<(seq<nat>, seq<seq<nat>>)>)
    ensures r.None? <==> ButtonsOf(segments, n).None?
    ensures r.Some? ==> r.value.0 == Masks(ButtonsOf(segments, n).value) && r.value.1 == Wires(ButtonsOf(segments, n).value)
  {
    var masks: seq<nat> := [];
    var wires: seq<seq<nat>> := [];
    ghost var buttons: seq<(nat, seq<nat>)> := [];
    for i := 0 to |segments|
      invariant MapsTo(segments[..i], ButtonReader(n), buttons)
      invariant masks == Masks(buttons) && wires == Wires(buttons)
    {
      var w := AllSome(Split(Split(segments[i], ')')[0], ','), ParseField);
      if w.None? {
        assert ButtonReader(n)(segments[i]).None?;
        AllSomeNoneAt(segments, ButtonReader(n), i);
        return None;
      }
      var mask := ButtonMask(w.value, n);
      if mask.None? {
        assert ButtonReader(n)(segments[i]).None?;
        AllSomeNoneAt(segments, ButtonReader(n), i);
        return None;
      }
      var button := (mask.value, w.value);
      assert ButtonReader(n)(segments[i]) == Some(button);
      MapsToStep(segments, ButtonReader(n), buttons, i, button);
      MasksWiresSnoc(buttons, button);
      buttons := buttons + [button];
      masks := masks + [mask.value];
      wires := wires + [w.value];
    }
    assert segments[..|segments|] == segments;
    MapsToAllSome(segments, ButtonReader(n), buttons);
    return Some((masks, wires));
  }

  /** Reads one machine line. */
  method FromLine(line: string) returns (r: Option<Machine>)
    ensures r == MachineOf(line)
  {
    var parts := PartsOf(line);
    if parts.None? {
      return None;
    }
    var (lights, buttonsPart, joltagePart) := parts.value;
    var goal := LightingGoal(lights);
    if goal.None? {
      return None;
    }
    var joltage := AllSome(Split(TrimEndMatches(joltagePart, '}'), ','), ParseField);
    if joltage.None? {
      return None;
    }
    var buttons := ReadButtons(Split(buttonsPart, '(')[1..], |lights|);
    if buttons.None? {
      return None;
    }
    return Some(Machine(|lights|, goal.value, buttons.value.0, buttons.value.1, joltage.value));
  }

  /** The machines of the lines, in order; None if any line is malformed. */
  function MachinesOf(lines: seq<string>): Option<seq<Machine>>
  {
    AllSome(lines, MachineOf)
  }

  /** Reads every line of the trimmed input as a machine. */
  method Create(input: string) returns (r: Option<seq<Machine>>)
    ensures r == MachinesOf(Lines(Trim(input)))
  {
    r := ReadMachines(Lines(Trim(input)));
  }

  /** Reads each line as a machine. */
  method ReadMachines(lines: seq<string>) returns (r: Option<seq<Machine>>)
    ensures r == MachinesOf(lines)
  {
    var machines: seq<Machine> := [];
    for i := 0 to |lines|
      invariant MapsTo(lines[..i], MachineOf, machines)
    {
      var m := FromLine(lines[i]);
      if m.None? {
        AllSomeNoneAt(lines, MachineOf, i);
        return None;
      }
      MapsToStep(lines, MachineOf, machines, i, m.value);
      machines := machines + [m.value];
    }
    assert lines[..|lines|] == lines;
    MapsToAllSome(lines, MachineOf, machines);
    return Some(machines);
  }

  /** Every machine read from the input has buttons that fit its lights. */
  lemma CreatedMachinesFit(input: string)
    requires MachinesOf(Lines(Trim(input))).Some?
    ensures forall m <- MachinesOf(Lines(Trim(input))).value :: MasksFit(m)
  {
    var lines := Lines(Trim(input));
    AllSomeEach(lines, MachineOf);
    forall i | 0 <= i < |lines|
      ensures MasksFit(MachinesOf(lines).value[i])
    {
      MachineButtons(lines[i]);
    }
  }
}
