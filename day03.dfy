// Banks of digits: for each bank, the largest number that can be read from a
// subsequence of exactly k of its digits, found with a monotone stack.
module Day03 {
  import opened Text

  // ------------------------------------------------------------ subsequences

  /** `idx` picks positions of a sequence of length `n`, in increasing order. */
  predicate IsSubseqIdx(idx: seq<int>, n: int)
  {
    (forall j :: 0 <= j < |idx| ==> 0 <= idx[j] < n)
    && (forall j, l :: 0 <= j < l < |idx| ==> idx[j] < idx[l])
  }

  function Pick(s: seq<nat>, idx: seq<int>): (t: seq<nat>)
    requires IsSubseqIdx(idx, |s|)
    ensures |t| == |idx|
    ensures forall j :: 0 <= j < |idx| ==> t[j] == s[idx[j]]
  {
    seq(|idx|, j requires 0 <= j < |idx| => s[idx[j]])
  }

  /** Lexicographic order: `t` is a prefix of `s`, or `t` is smaller at the
      first position where they differ. */
  predicate LexLeq(t: seq<nat>, s: seq<nat>)
  {
    (|t| <= |s| && t == s[..|t|])
    || exists j :: 0 <= j < |t| && j < |s| && t[..j] == s[..j] && t[j] < s[j]
  }

  predicate NonIncreasing(s: seq<nat>)
  {
    forall j, l :: 0 <= j < l < |s| ==> s[j] >= s[l]
  }

  /** `stack` is at least every subsequence of `digits[..i]` that leaves out
      at most `budget` of its digits. */
  ghost predicate LexMaxOfPrefix(digits: seq<nat>, i: nat, budget: nat, stack: seq<nat>)
    requires i <= |digits|
  {
    forall idx {:trigger Pick(digits, idx)} :: IsSubseqIdx(idx, i) && |idx| + budget >= i ==> LexLeq(Pick(digits, idx), stack)
  }

  lemma EmptyPrefixMax(digits: seq<nat>, budget: nat)
    ensures LexMaxOfPrefix(digits, 0, budget, [])
  {
    forall idx | IsSubseqIdx(idx, 0) && |idx| + budget >= 0
      ensures LexLeq(Pick(digits, idx), [])
    {
      SubseqIdxLength(idx, 0);
    }
  }

  /** Increasing positions below `n` are at most `n` many. */
  lemma {:induction false} SubseqIdxLength(idx: seq<int>, n: nat)
    requires IsSubseqIdx(idx, n)
    ensures |idx| <= n
  {
    if idx != [] {
      var last: nat := idx[|idx| - 1];
      var front := idx[..|idx| - 1];
      assert last < n;
      assert IsSubseqIdx(front, last) by {
        forall j | 0 <= j < |front| ensures front[j] < last {
          assert idx[j] < idx[|idx| - 1];
        }
      }
      SubseqIdxLength(front, last);
      assert |idx| == |front| + 1;
    }
  }

  // ---------------------------------------------------- one push, two cases

  /** A subsequence that skips the new digit stays below the new stack. */
  lemma SkipNewDigit(t: seq<nat>, s: seq<nat>, a: nat, x: nat)
    requires LexLeq(t, s)
    requires a <= |s|
    requires forall j :: a <= j < |s| ==> s[j] < x
    ensures LexLeq(t, s[..a] + [x])
  {
    var s' := s[..a] + [x];
    if |t| <= |s| && t == s[..|t|] {
      if |t| > a {
        assert t[..a] == s'[..a] && t[a] < s'[a];
      } else {
        assert t == s'[..|t|];
      }
    } else {
      var j :| 0 <= j < |t| && j < |s| && t[..j] == s[..j] && t[j] < s[j];
      if j < a {
        assert t[..j] == s'[..j] && t[j] < s'[j];
      } else {
        assert t[..a] == s[..a];
        assert t[a] <= s[a] by {
          if a < j { assert t[a] == t[..j][a] == s[..j][a]; }
        }
        assert t[..a] == s'[..a] && t[a] < s'[a];
      }
    }
  }

  /** A subsequence that ends with the new digit stays below the new stack. */
  lemma TakeNewDigit(t: seq<nat>, s: seq<nat>, a: nat, x: nat)
    requires LexLeq(t, s)
    requires a <= |s|
    requires forall j :: a <= j < |s| ==> s[j] < x
    requires |t| >= a || (NonIncreasing(s) && 0 < a && s[a - 1] >= x)
    ensures LexLeq(t + [x], s[..a] + [x])
  {
    var s' := s[..a] + [x];
    var t' := t + [x];
    if |t| <= |s| && t == s[..|t|] {
      if |t| == a {
        assert t' == s';
      } else if |t| > a {
        assert t'[..a] == s'[..a] && t'[a] < s'[a];
      } else {
        var n := |t|;
        assert s[n] >= s[a - 1] >= x;
        if s[n] == x {
          assert t' == s'[..n + 1];
        } else {
          assert t'[..n] == s'[..n] && t'[n] < s'[n];
        }
      }
    } else {
      var j :| 0 <= j < |t| && j < |s| && t[..j] == s[..j] && t[j] < s[j];
      if j < a {
        assert t'[..j] == s'[..j] && t'[j] < s'[j];
      } else {
        assert t[..a] == s[..a];
        assert t[a] <= s[a] by {
          if a < j { assert t[a] == t[..j][a] == s[..j][a]; }
        }
        assert t'[..a] == s'[..a] && t'[a] < s'[a];
      }
    }
  }

  /** Pushing digit `i` after popping the stack down to `a` keeps the stack the
      lexicographic maximum, now of `digits[..i + 1]`. */
  lemma PushKeepsMax(digits: seq<nat>, i: nat, budget: nat, s: seq<nat>, a: nat, left: nat)
    requires i < |digits|
    requires LexMaxOfPrefix(digits, i, budget, s)
    requires a <= |s| && a + 1 + (budget - left) == i + 1 && left <= budget
    requires forall j :: a <= j < |s| ==> s[j] < digits[i]
    requires left == 0 || a == 0 || s[a - 1] >= digits[i]
    requires left > 0 ==> NonIncreasing(s)
    ensures LexMaxOfPrefix(digits, i + 1, budget, s[..a] + [digits[i]])
  {
    forall idx | IsSubseqIdx(idx, i + 1) && |idx| + budget >= i + 1
      ensures LexLeq(Pick(digits, idx), s[..a] + [digits[i]])
    {
      if |idx| > 0 && idx[|idx| - 1] == i {
        PushCaseTake(digits, i, budget, s, a, left, idx);
      } else {
        PushCaseSkip(digits, i, budget, s, a, idx);
      }
    }
  }

  lemma PushCaseTake(digits: seq<nat>, i: nat, budget: nat, s: seq<nat>, a: nat, left: nat, idx: seq<int>)
    requires i < |digits|
    requires LexMaxOfPrefix(digits, i, budget, s)
    requires a <= |s| && a + 1 + (budget - left) == i + 1 && left <= budget
    requires forall j :: a <= j < |s| ==> s[j] < digits[i]
    requires left == 0 || a == 0 || s[a - 1] >= digits[i]
    requires left > 0 ==> NonIncreasing(s)
    requires IsSubseqIdx(idx, i + 1) && |idx| + budget >= i + 1
    requires |idx| > 0 && idx[|idx| - 1] == i
    ensures LexLeq(Pick(digits, idx), s[..a] + [digits[i]])
  {
    var n := |idx|;
    var front := idx[..n - 1];
    assert IsSubseqIdx(front, i) by {
      forall j | 0 <= j < |front| ensures front[j] < i {
        assert idx[j] < idx[n - 1];
      }
    }
    var t := Pick(digits, front);
    assert LexLeq(t, s);
    assert Pick(digits, idx) == t + [digits[i]];
    TakeNewDigit(t, s, a, digits[i]);
  }

  lemma PushCaseSkip(digits: seq<nat>, i: nat, budget: nat, s: seq<nat>, a: nat, idx: seq<int>)
    requires i < |digits|
    requires LexMaxOfPrefix(digits, i, budget, s)
    requires a <= |s|
    requires forall j :: a <= j < |s| ==> s[j] < digits[i]
    requires IsSubseqIdx(idx, i + 1) && |idx| + budget >= i + 1
    requires !(|idx| > 0 && idx[|idx| - 1] == i)
    ensures LexLeq(Pick(digits, idx), s[..a] + [digits[i]])
  {
    var n := |idx|;
    assert IsSubseqIdx(idx, i) by {
      forall j | 0 <= j < n ensures idx[j] < i {
        if j < n - 1 {
          assert idx[j] < idx[n - 1];
        }
      }
    }
    var t := Pick(digits, idx);
    assert LexLeq(t, s);
    SkipNewDigit(t, s, a, digits[i]);
  }

  lemma PushNonIncreasing(s: seq<nat>, a: nat, x: nat)
    requires NonIncreasing(s) && a <= |s|
    requires a == 0 || s[a - 1] >= x
    ensures NonIncreasing(s[..a] + [x])
  {
  }

  // ------------------------------------------------------ decimal value

  /** The fold `acc * 10 + d` over the digits. */
  function Value(ds: seq<nat>): nat
  {
    if ds == [] then 0 else Value(ds[..|ds| - 1]) * 10 + ds[|ds| - 1]
  }

  predicate AllDecimal(ds: seq<nat>) { forall j :: 0 <= j < |ds| ==> ds[j] < 10 }

  lemma {:induction false} ValueBound(ds: seq<nat>)
    requires AllDecimal(ds)
    ensures Value(ds) < Pow10(|ds|)
  {
    if ds != [] { ValueBound(ds[..|ds| - 1]); }
  }

  lemma {:induction false} ValueAppend(a: seq<nat>, b: seq<nat>)
    ensures Value(a + b) == Value(a) * Pow10(|b|) + Value(b)
    decreases |b|
  {
    if b != [] {
      var b' := b[..|b| - 1];
      assert (a + b)[..|a + b| - 1] == a + b';
      ValueAppend(a, b');
      ShiftDigit(Value(a), Pow10(|b'|), Value(b'), b[|b| - 1]);
    } else {
      assert a + b == a;
    }
  }

  lemma ShiftDigit(x: int, p: int, y: int, d: int)
    ensures (x * p + y) * 10 + d == x * (10 * p) + (y * 10 + d)
  {
  }

  /** Σ ds[i]·10^(|ds|-1-i), summed from the most significant digit. */
  function WeightedSum(ds: seq<nat>): nat
  {
    if ds == [] then 0 else ds[0] * Pow10(|ds| - 1) + WeightedSum(ds[1..])
  }

  /** The fold `acc * 10 + d` gives each digit its positional weight. */
  lemma {:induction false} ValueIsWeightedSum(ds: seq<nat>)
    ensures Value(ds) == WeightedSum(ds)
  {
    if ds != [] {
      ValueAppend([ds[0]], ds[1..]);
      assert [ds[0]] + ds[1..] == ds;
      assert Value([ds[0]]) == ds[0] by {
        assert [ds[0]][..0] == [];
      }
      ValueIsWeightedSum(ds[1..]);
    }
  }

  lemma {:induction false} ScaledLess(x: nat, y: nat, p: nat, r: nat)
    requires x < y && r < p
    ensures x * p + r < y * p
    decreases y - x
  {
    if y > x + 1 {
      ScaledLess(x, y - 1, p, r);
    }
  }

  /** The value of a prefix that ends with digit `j`. */
  lemma ValuePrefixStep(ds: seq<nat>, j: nat)
    requires j < |ds|
    ensures Value(ds[..j + 1]) == Value(ds[..j]) * 10 + ds[j]
  {
    assert ds[..j + 1][..j] == ds[..j];
  }

  /** For decimal digit strings of one length, lexicographic order is numeric order. */
  lemma LexLeqValue(t: seq<nat>, s: seq<nat>)
    requires |t| == |s| && AllDecimal(t) && AllDecimal(s)
    requires LexLeq(t, s)
    ensures Value(t) <= Value(s)
  {
    if t != s {
      var j :| 0 <= j < |t| && j < |s| && t[..j] == s[..j] && t[j] < s[j];
      var tailT, tailS := t[j + 1..], s[j + 1..];
      var p := Pow10(|tailT|);
      assert t == t[..j + 1] + tailT && s == s[..j + 1] + tailS;
      ValueAppend(t[..j + 1], tailT);
      ValueAppend(s[..j + 1], tailS);
      var vt, vs := Value(t[..j + 1]), Value(s[..j + 1]);
      assert vt < vs by {
        ValuePrefixStep(t, j);
        ValuePrefixStep(s, j);
      }
      ValueBound(tailT);
      ScaledLess(vt, vs, p, Value(tailT));
      assert Value(t) == vt * p + Value(tailT) && Value(s) == vs * p + Value(tailS);
    }
  }

  // ---------------------------------------------------------- the kernel

  /** `kept` is a subsequence of `length` digits that is lexicographically at
      least every other one: the best choice the bank offers. */
  ghost predicate IsBest(digits: seq<nat>, length: nat, kept: seq<nat>)
  {
    |kept| == length
    && (exists idx {:trigger Pick(digits, idx)} :: IsSubseqIdx(idx, |digits|) && |idx| == length && kept == Pick(digits, idx))
    && forall idx {:trigger Pick(digits, idx)} :: IsSubseqIdx(idx, |digits|) && |idx| == length ==> LexLeq(Pick(digits, idx), kept)
  }

  /** `max_subsequence`: scan with `|digits| - length` deletions, truncate
      the stack to `length` digits and fold them into a number. The digits
      it keeps are the best subsequence of `length` digits, and with decimal
      digits its value is the largest such number. */
  method MaxSubsequence(digits: seq<nat>, length: nat) returns (kept: seq<nat>, value: nat)
    requires length <= |digits|
    ensures IsBest(digits, length, kept)
    ensures value == Value(kept)
    ensures AllDecimal(digits) ==>
      forall idx {:trigger Pick(digits, idx)} :: IsSubseqIdx(idx, |digits|) && |idx| == length ==> Value(Pick(digits, idx)) <= value
  {
    var budget := |digits| - length;
    var stack, sidx := ScanDigits(digits, budget);
    kept := stack[..length];
    value := Value(kept);
    FinalStackIsBest(digits, budget, stack, sidx, length);
    if AllDecimal(digits) {
      BestIsLargest(digits, length, kept);
    }
  }

  /** The loop of `max_subsequence`: each digit pops the smaller digits off
      the stack while deletions are left, then is pushed. The stack ends as
      the subsequence `sidx` picks, at least `|digits| - budget` long and
      lexicographically above every subsequence that leaves out at most
      `budget` digits. */
  method ScanDigits(digits: seq<nat>, budget: nat) returns (stack: seq<nat>, ghost sidx: seq<int>)
    requires budget <= |digits|
    ensures |stack| >= |digits| - budget
    ensures IsSubseqIdx(sidx, |digits|) && stack == Pick(digits, sidx)
    ensures LexMaxOfPrefix(digits, |digits|, budget, stack)
  {
    var deletions: nat := budget;
    stack := [];
    sidx := [];
    EmptyPrefixMax(digits, budget);
    for i := 0 to |digits|
      invariant deletions <= budget
      invariant |stack| == i - (budget - deletions) && |sidx| == |stack|
      invariant ScanState(digits, budget, i, deletions, stack, sidx)
    {
      var digit := digits[i];
      ghost var before, beforeIdx, beforeDeletions := stack, sidx, deletions;
      stack, deletions := PopSmaller(stack, deletions, digit);
      PushStep(digits, budget, i, beforeDeletions, before, beforeIdx, stack, deletions);
      sidx := sidx[..|stack|] + [i];
      stack := stack + [digit];
    }
  }

  /** What the scan knows after the first `i` digits: the stack is the
      subsequence `sidx` picks, it is non-increasing while deletions are
      left, and it is the lexicographic maximum of the prefix. */
  ghost predicate ScanState(digits: seq<nat>, budget: nat, i: nat, deletions: nat, stack: seq<nat>, sidx: seq<int>)
    requires i <= |digits|
  {
    IsSubseqIdx(sidx, i) && stack == Pick(digits, sidx)
    && (deletions > 0 ==> NonIncreasing(stack))
    && LexMaxOfPrefix(digits, i, budget, stack)
  }

  /** Popping the smaller entries and pushing digit `i` moves the scan state
      from `digits[..i]` to `digits[..i + 1]`. */
  lemma PushStep(digits: seq<nat>, budget: nat, i: nat, deletions: nat, stack: seq<nat>, sidx: seq<int>, popped: seq<nat>, left: nat)
    requires i < |digits| && deletions <= budget
    requires |stack| == i - (budget - deletions) && |sidx| == |stack|
    requires ScanState(digits, budget, i, deletions, stack, sidx)
    requires |popped| <= |stack| && popped == stack[..|popped|]
    requires left + (|stack| - |popped|) == deletions
    requires forall j :: |popped| <= j < |stack| ==> stack[j] < digits[i]
    requires left == 0 || popped == [] || popped[|popped| - 1] >= digits[i]
    ensures ScanState(digits, budget, i + 1, left, popped + [digits[i]], sidx[..|popped|] + [i])
  {
    PushKeepsMax(digits, i, budget, stack, |popped|, left);
    if left > 0 {
      PushNonIncreasing(stack, |popped|, digits[i]);
    }
    PushPick(digits, sidx, stack, popped, i);
  }

  lemma PushPick(digits: seq<nat>, sidx: seq<int>, stack: seq<nat>, popped: seq<nat>, i: nat)
    requires i < |digits| && IsSubseqIdx(sidx, i) && stack == Pick(digits, sidx)
    requires |popped| <= |stack| && popped == stack[..|popped|]
    ensures IsSubseqIdx(sidx[..|popped|] + [i], i + 1)
    ensures popped + [digits[i]] == Pick(digits, sidx[..|popped|] + [i])
  {
    PushSubseq(digits, sidx, |popped|, i);
  }

  /** The inner loop of `max_subsequence`: while deletions are left, pop the
      entries smaller than `digit` off the top of the stack. */
  method PopSmaller(stack: seq<nat>, deletions: nat, digit: nat) returns (popped: seq<nat>, left: nat)
    ensures |popped| <= |stack| && popped == stack[..|popped|]
    ensures left + (|stack| - |popped|) == deletions
    ensures forall j :: |popped| <= j < |stack| ==> stack[j] < digit
    ensures left == 0 || popped == [] || popped[|popped| - 1] >= digit
  {
    popped, left := stack, deletions;
    while left > 0 && |popped| > 0 && popped[|popped| - 1] < digit
      invariant |popped| <= |stack| && popped == stack[..|popped|]
      invariant left + (|stack| - |popped|) == deletions
      invariant forall j :: |popped| <= j < |stack| ==> stack[j] < digit
    {
      popped := popped[..|popped| - 1];
      left := left - 1;
    }
  }

  /** Popping the stack to `a` entries and pushing digit `i` keeps it the
      subsequence that `idx[..a] + [i]` picks. */
  lemma PushSubseq(digits: seq<nat>, idx: seq<int>, a: nat, i: nat)
    requires i < |digits| && IsSubseqIdx(idx, i) && a <= |idx|
    ensures IsSubseqIdx(idx[..a] + [i], i + 1)
    ensures Pick(digits, idx)[..a] + [digits[i]] == Pick(digits, idx[..a] + [i])
  {
  }

  /** After the scan, the first `length` entries of the stack are the best
      subsequence. */
  lemma FinalStackIsBest(digits: seq<nat>, budget: nat, stack: seq<nat>, sidx: seq<int>, length: nat)
    requires length + budget == |digits| && length <= |stack|
    requires IsSubseqIdx(sidx, |digits|) && stack == Pick(digits, sidx)
    requires LexMaxOfPrefix(digits, |digits|, budget, stack)
    ensures IsBest(digits, length, stack[..length])
  {
    TruncatedStackIsMax(digits, budget, stack, length);
    SubseqPrefix(digits, sidx, length);
  }

  lemma SubseqPrefix(digits: seq<nat>, idx: seq<int>, length: nat)
    requires IsSubseqIdx(idx, |digits|) && length <= |idx|
    ensures IsSubseqIdx(idx[..length], |digits|)
    ensures Pick(digits, idx)[..length] == Pick(digits, idx[..length])
  {
  }

  /** With decimal digits, the best subsequence is also the largest number. */
  lemma BestIsLargest(digits: seq<nat>, length: nat, kept: seq<nat>)
    requires AllDecimal(digits) && IsBest(digits, length, kept)
    ensures forall idx {:trigger Pick(digits, idx)} :: IsSubseqIdx(idx, |digits|) && |idx| == length ==> Value(Pick(digits, idx)) <= Value(kept)
  {
    var w :| IsSubseqIdx(w, |digits|) && |w| == length && kept == Pick(digits, w);
    assert AllDecimal(kept);
    forall idx | IsSubseqIdx(idx, |digits|) && |idx| == |kept|
      ensures Value(Pick(digits, idx)) <= Value(kept)
    {
      LexLeqValue(Pick(digits, idx), kept);
    }
  }

  /** Cutting the final stack to `length` digits keeps it above every
      subsequence of that length. */
  lemma TruncatedStackIsMax(digits: seq<nat>, budget: nat, stack: seq<nat>, length: nat)
    requires length + budget == |digits| && length <= |stack|
    requires LexMaxOfPrefix(digits, |digits|, budget, stack)
    ensures forall idx {:trigger Pick(digits, idx)} :: IsSubseqIdx(idx, |digits|) && |idx| == length ==> LexLeq(Pick(digits, idx), stack[..length])
  {
    forall idx | IsSubseqIdx(idx, |digits|) && |idx| == length
      ensures LexLeq(Pick(digits, idx), stack[..length])
    {
      var t := Pick(digits, idx);
      assert LexLeq(t, stack);
      if !(|t| <= |stack| && t == stack[..|t|]) {
        var j :| 0 <= j < |t| && j < |stack| && t[..j] == stack[..j] && t[j] < stack[j];
        assert t[..j] == stack[..length][..j] && t[j] < stack[..length][j];
      }
    }
  }

  /** Two sequences of one length that are each lexicographically at most
      the other are equal. */
  lemma LexLeqAntisymmetric(t: seq<nat>, s: seq<nat>)
    requires |t| == |s| && LexLeq(t, s) && LexLeq(s, t)
    ensures t == s
  {
    if t != s {
      assert false;
    }
  }

  /** The best subsequence of a given length is unique, so the sum below
      does not depend on how ties between equal digits are broken. */
  lemma BestUnique(digits: seq<nat>, length: nat, a: seq<nat>, b: seq<nat>)
    requires IsBest(digits, length, a) && IsBest(digits, length, b)
    ensures a == b
  {
    var ia :| IsSubseqIdx(ia, |digits|) && |ia| == length && a == Pick(digits, ia);
    var ib :| IsSubseqIdx(ib, |digits|) && |ib| == length && b == Pick(digits, ib);
    assert LexLeq(a, b) && LexLeq(b, a);
    LexLeqAntisymmetric(a, b);
  }

  function SumValues(ks: seq<seq<nat>>): nat
  {
    if ks == [] then 0 else SumValues(ks[..|ks| - 1]) + Value(ks[|ks| - 1])
  }

  /** The best `k`-digit number of every bank, summed; part 1 uses k = 2 and
      part 2 uses k = 12. The ghost `best` holds the digits chosen for each
      bank. */
  method SumOfMaxima(banks: seq<seq<nat>>, k: nat) returns (total: nat, ghost best: seq<seq<nat>>)
    requires forall b :: 0 <= b < |banks| ==> k <= |banks[b]|
    ensures |best| == |banks|
    ensures forall b :: 0 <= b < |banks| ==> IsBest(banks[b], k, best[b])
    ensures total == SumValues(best)
  {
    total := 0;
    best := [];
    for b := 0 to |banks|
      invariant |best| == b
      invariant forall c :: 0 <= c < b ==> IsBest(banks[c], k, best[c])
      invariant total == SumValues(best)
    {
      var kept, v := MaxSubsequence(banks[b], k);
      assert (best + [kept])[..b] == best;
      best := best + [kept];
      total := total + v;
    }
  }

  /** `solve_part_1`: the best two digits of every bank. */
  method SolvePart1(banks: seq<seq<nat>>) returns (total: nat, ghost best: seq<seq<nat>>)
    requires forall b :: 0 <= b < |banks| ==> 2 <= |banks[b]|
    ensures |best| == |banks| && total == SumValues(best)
    ensures forall b :: 0 <= b < |banks| ==> IsBest(banks[b], 2, best[b])
  {
    total, best := SumOfMaxima(banks, 2);
  }

  /** `solve_part_2`: the best twelve digits of every bank. */
  method SolvePart2(banks: seq<seq<nat>>) returns (total: nat, ghost best: seq<seq<nat>>)
    requires forall b :: 0 <= b < |banks| ==> 12 <= |banks[b]|
    ensures |best| == |banks| && total == SumValues(best)
    ensures forall b :: 0 <= b < |banks| ==> IsBest(banks[b], 12, best[b])
  {
    total, best := SumOfMaxima(banks, 12);
  }

  // ------------------------------------------------------------ parsing

  /** One bank: each character of the trimmed line minus `'0'`; `None` where
      that subtraction would underflow. */
  function ParseBank(line: string): (r: Option<seq<nat>>)
    ensures r.Some? <==> forall j :: 0 <= j < |line| ==> line[j] >= '0'
    ensures r.Some? ==> |r.value| == |line|
    ensures r.Some? ==> forall j :: 0 <= j < |line| ==> r.value[j] == line[j] as int - '0' as int
  {
    if line == [] then Some([])
    else if line[0] < '0' then None
    else match ParseBank(line[1..])
      case None => None
      case Some(rest) => Some([line[0] as int - '0' as int] + rest)
  }

  function ParseBanks(lines: seq<string>): (r: Option<seq<seq<nat>>>)
    ensures r.Some? ==> |r.value| == |lines|
  {
    if lines == [] then Some([])
    else match (ParseBank(Trim(lines[0])), ParseBanks(lines[1..]))
      case (Some(b), Some(bs)) => Some([b] + bs)
      case _ => None
  }

  /** `Day::create`: one bank per line. */
  function Create(input: string): Option<seq<seq<nat>>>
  {
    ParseBanks(Lines(input))
  }

  /** The line of decimal digits that writes a bank. */
  function ShowBank(ds: seq<nat>): (line: string)
    requires AllDecimal(ds)
    ensures |line| == |ds| && AllDigits(line)
    ensures forall j :: 0 <= j < |ds| ==> DigitValue(line[j]) == ds[j]
  {
    seq(|ds|, j requires 0 <= j < |ds| => DigitChar(ds[j]))
  }

  /** Parsing the written banks gives the banks back. */
  lemma {:induction false} CreateShowBanks(banks: seq<seq<nat>>)
    requires forall b :: 0 <= b < |banks| ==> AllDecimal(banks[b])
    ensures Create(JoinLines(seq(|banks|, b requires 0 <= b < |banks| => ShowBank(banks[b])))) == Some(banks)
  {
    var ls := seq(|banks|, b requires 0 <= b < |banks| => ShowBank(banks[b]));
    forall b | 0 <= b < |ls|
      ensures '\n' !in ls[b] && StripCr(ls[b]) == ls[b]
    {
      assert forall j :: 0 <= j < |ls[b]| ==> IsDigit(ls[b][j]);
    }
    LinesJoinLines(ls);
    ParseBanksShow(banks, ls);
  }

  /** A written bank has nothing to trim and parses back to itself. */
  lemma ParseShowBank(ds: seq<nat>)
    requires AllDecimal(ds)
    ensures Trim(ShowBank(ds)) == ShowBank(ds)
    ensures ParseBank(ShowBank(ds)) == Some(ds)
  {
    TrimShowBank(ds);
    var line := ShowBank(ds);
    assert forall j :: 0 <= j < |line| ==> line[j] >= '0';
    var r := ParseBank(line);
    assert |r.value| == |ds|;
    assert forall j :: 0 <= j < |ds| ==> r.value[j] == DigitValue(line[j]) == ds[j];
    assert r.value == ds;
  }

  /** A written bank has no whitespace to trim. */
  lemma TrimShowBank(ds: seq<nat>)
    requires AllDecimal(ds)
    ensures Trim(ShowBank(ds)) == ShowBank(ds)
  {
    var line := ShowBank(ds);
    if line != [] {
      assert IsDigit(line[0]) && IsDigit(line[|line| - 1]);
      TrimNoEdges(line);
    } else {
      assert Trim(line) == line;
    }
  }

  lemma {:induction false} ParseBanksShow(banks: seq<seq<nat>>, ls: seq<string>)
    requires |ls| == |banks|
    requires forall b :: 0 <= b < |banks| ==> AllDecimal(banks[b]) && ls[b] == ShowBank(banks[b])
    ensures ParseBanks(ls) == Some(banks)
  {
    if banks != [] {
      ParseShowBank(banks[0]);
      ParseBanksShow(banks[1..], ls[1..]);
      assert [banks[0]] + banks[1..] == banks;
    }
  }
}
