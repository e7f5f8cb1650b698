// Invalid product ids: numbers whose decimal digits repeat a block. Part 1
// sums, over every id range, the numbers made of a block written twice;
// part 2 the numbers made of a block written at least twice. Both work in
// closed form: for every length they sum an arithmetic series of blocks
// and scale it by the multiplier 1 + 10^p + 10^2p + ... that repeats a
// block, and part 2 turns the sums per block length into sums per
// primitive block length with Möbius inversion.
module Day02 {
  import opened Text

  /** An inclusive range `start..=end` of ids. */
  datatype IdRange = IdRange(start: nat, end: nat)

  // ------------------------------------------------------------ digit counts

  /** `num_digits`: the number of decimal digits, 1 for 0. */
  function NumDigits(n: nat): (d: nat)
    ensures d >= 1
    ensures n == 0 ==> d == 1
    ensures n > 0 ==> Pow10(d - 1) <= n < Pow10(d)
  {
    if n < 10 then 1 else 1 + NumDigits(n / 10)
  }

  /** A positive number between 10^(d-1) and 10^d has `d` digits. */
  lemma NumDigitsOf(n: nat, d: nat)
    requires d >= 1 && Pow10(d - 1) <= n < Pow10(d)
    ensures NumDigits(n) == d
  {
    var e := NumDigits(n);
    if e < d {
      Pow10Monotone(e, d - 1);
      assert false;
    } else if e > d {
      Pow10Monotone(d, e - 1);
      assert false;
    }
  }

  lemma NumDigitsMonotone(m: nat, n: nat)
    requires m <= n
    ensures NumDigits(m) <= NumDigits(n)
  {
    if NumDigits(m) > NumDigits(n) && m > 0 {
      Pow10Monotone(NumDigits(n), NumDigits(m) - 1);
      assert false;
    }
  }

  /** The digit count is the length of the decimal representation. */
  lemma {:induction false} NumDigitsIsLength(n: nat)
    ensures NumDigits(n) == |Show(n)|
  {
    if n >= 10 { NumDigitsIsLength(n / 10); }
  }

  // ------------------------------------------------------------ repetition

  /** `calculate_multiplier(p, k)`: Σ_{i<k} 10^(i·p), summed in the order of
      the fold. */
  function Multiplier(p: nat, k: nat): (m: nat)
    ensures k >= 1 ==> m >= 1
  {
    if k == 0 then 0 else Multiplier(p, k - 1) + Pow10((k - 1) * p)
  }

  /** Prepending one block to a repetition multiplies by 10^p and adds 1. */
  lemma {:induction false} MultiplierShift(p: nat, k: nat)
    ensures Multiplier(p, k + 1) == Multiplier(p, k) * Pow10(p) + 1
  {
    if k > 0 {
      MultiplierShift(p, k - 1);
      MultiplierShiftStep(p, k);
    }
  }

  lemma MultiplierShiftStep(p: nat, k: nat)
    requires k >= 1 && Multiplier(p, k) == Multiplier(p, k - 1) * Pow10(p) + 1
    ensures Multiplier(p, k + 1) == Multiplier(p, k) * Pow10(p) + 1
  {
    var m, q, t := Multiplier(p, k - 1), Pow10(p), Pow10((k - 1) * p);
    Pow10Add((k - 1) * p, p);
    MulSucc(k, p);
    ShiftAlgebra(m, q, t, Multiplier(p, k));
  }

  lemma MulSucc(k: nat, p: nat)
    requires k >= 1
    ensures (k - 1) * p + p == k * p
  {
  }

  lemma ShiftAlgebra(m: int, q: int, t: int, mk: int)
    requires mk == m * q + 1 && mk == m + t
    ensures mk + t * q == mk * q + 1
  {
    Distribute(q, m, t);
  }

  /** The block `t` written `k` times. */
  function RepeatStr(t: string, k: nat): (s: string)
    ensures |s| == |t| * k
  {
    if k == 0 then [] else RepeatStr(t, k - 1) + t
  }

  lemma {:induction false} RepeatStrDigits(t: string, k: nat)
    requires AllDigits(t)
    ensures AllDigits(RepeatStr(t, k))
    ensures DigitsValue(RepeatStr(t, k)) == DigitsValue(t) * Multiplier(|t|, k)
  {
    if k > 0 {
      var r := RepeatStr(t, k - 1);
      var v, m, q := DigitsValue(t), Multiplier(|t|, k - 1), Pow10(|t|);
      assert RepeatStr(t, k) == r + t;
      RepeatStrDigits(t, k - 1);
      DigitsValueAppend(r, t);
      MultiplierShift(|t|, k - 1);
      RepeatValueStep(DigitsValue(r), v, m, q, Multiplier(|t|, k), DigitsValue(r + t));
    }
  }

  lemma Distribute(m: int, a: int, b: int)
    ensures m * (a + b) == m * a + b * m
    ensures (a + b) * m == a * m + b * m
  {
  }

  lemma RepeatValueStep(dr: int, v: int, m: int, q: int, mk: int, d: int)
    requires dr == v * m && mk == m * q + 1 && d == dr * q + v
    ensures d == v * mk
  {
    ScaleShift(v, m, q);
  }

  lemma ScaleShift(v: int, m: int, q: int)
    ensures v * (m * q + 1) == (v * m) * q + v
  {
  }

  lemma {:induction false} RepeatStrPrefix(t: string, k: nat)
    requires k >= 1
    ensures RepeatStr(t, k)[..|t|] == t
    ensures |t| > 0 ==> RepeatStr(t, k)[0] == t[0]
  {
    if k > 1 {
      RepeatStrPrefix(t, k - 1);
      assert RepeatStr(t, k)[..|t|] == RepeatStr(t, k - 1)[..|t|];
    }
  }

  /** `x` is `k` copies of a `p`-digit block: the multiplier divides it and
      the quotient has exactly `p` digits. */
  predicate Block(x: nat, p: nat, k: nat)
  {
    p >= 1 && k >= 1
    && x % Multiplier(p, k) == 0
    && Pow10(p - 1) <= x / Multiplier(p, k) < Pow10(p)
  }

  /** The decimal representation of `x` is its first `p` characters written
      over and over. */
  predicate IsRepetition(x: nat, p: nat)
  {
    var s := Show(x);
    1 <= p <= |s| && |s| % p == 0 && s == RepeatStr(s[..p], |s| / p)
  }

  /** The arithmetic test and the digit-string test agree. */
  lemma BlockIffRepetition(x: nat, p: nat, k: nat)
    requires x >= 1 && p >= 1 && k >= 1
    ensures Block(x, p, k) <==> |Show(x)| == p * k && IsRepetition(x, p)
  {
    if |Show(x)| == p * k && IsRepetition(x, p) {
      RepetitionIsBlock(x, p, k);
    }
    if Block(x, p, k) {
      BlockIsRepetition(x, p, k);
    }
  }

  lemma RepetitionIsBlock(x: nat, p: nat, k: nat)
    requires x >= 1 && p >= 1 && k >= 1
    requires |Show(x)| == p * k && IsRepetition(x, p)
    ensures Block(x, p, k)
  {
    var s := Show(x);
    var t := s[..p];
    var m := Multiplier(p, k);
    LengthQuotient(p, k);
    assert s == RepeatStr(t, k);
    RepeatStrDigits(t, k);
    ShowValue(x);
    assert t[0] == s[0] != '0';
    DigitsValueBounds(t);
    var v := DigitsValue(t);
    assert x == v * m;
    QuotientOfMultiple(v, m);
    assert x / m == v && Pow10(p - 1) <= v < Pow10(p);
  }

  lemma QuotientOfMultiple(v: nat, m: nat)
    requires m >= 1
    ensures (v * m) % m == 0 && (v * m) / m == v
  {
    DivUnique(v * m, m, v, 0);
  }

  /** Euclidean division is unique. */
  lemma DivUnique(a: int, m: int, q: int, r: int)
    requires m >= 1 && 0 <= r < m && a == q * m + r
    ensures a / m == q && a % m == r
  {
    var q', r' := a / m, a % m;
    assert a == q' * m + r';
    assert (q - q') * m == r' - r;
    if q > q' {
      MulAtLeast(q - q', m);
      assert false;
    } else if q < q' {
      MulAtLeast(q' - q, m);
      assert false;
    }
  }

  lemma MulAtLeast(d: int, m: int)
    requires d >= 1 && m >= 0
    ensures d * m >= m
  {
  }

  lemma ExactQuotient(x: nat, m: nat)
    requires m >= 1 && x % m == 0
    ensures x == (x / m) * m
  {
  }

  lemma LengthQuotient(p: nat, k: nat)
    requires p >= 1
    ensures (p * k) / p == k && (p * k) % p == 0
  {
    QuotientOfMultiple(k, p);
    assert k * p == p * k;
  }

  lemma BlockIsRepetition(x: nat, p: nat, k: nat)
    requires Block(x, p, k)
    ensures |Show(x)| == p * k && IsRepetition(x, p)
  {
    var m := Multiplier(p, k);
    var seed := x / m;
    ExactQuotient(x, m);
    var t := Show(seed);
    NumDigitsOf(seed, p);
    NumDigitsIsLength(seed);
    ShowValue(seed);
    assert |t| == p && t[0] != '0';
    var u := RepeatStr(t, k);
    RepeatStrDigits(t, k);
    RepeatStrPrefix(t, k);
    assert DigitsValue(u) == x;
    ShowDigitsValue(u);
    assert Show(x) == u;
    LengthQuotient(p, k);
    assert |u| == p * k;
    assert u[..p] == t;
  }

  /** A repetition is at least its multiplier, hence has exactly `p * k` digits. */
  lemma BlockDigits(x: nat, p: nat, k: nat)
    requires Block(x, p, k)
    ensures NumDigits(x) == p * k && x >= Multiplier(p, k)
  {
    BlockIsRepetition(x, p, k);
    NumDigitsIsLength(x);
    var m := Multiplier(p, k);
    ExactQuotient(x, m);
    MulAtLeast(x / m, m);
  }

  // ------------------------------------------------------------ doublets

  /** The decimal representation of `x` is two equal halves. */
  predicate IsDoublet(x: nat)
  {
    var s := Show(x);
    |s| % 2 == 0 && s[..|s| / 2] == s[|s| / 2..]
  }

  /** A doublet of `2p` digits is exactly a 2-fold repetition of a `p`-digit block. */
  lemma DoubletByLength(x: nat, p: nat)
    requires p >= 1
    ensures Block(x, p, 2) <==> IsDoublet(x) && NumDigits(x) == 2 * p
  {
    var s := Show(x);
    NumDigitsIsLength(x);
    if Block(x, p, 2) {
      BlockIsRepetition(x, p, 2);
      LengthQuotient(p, 2);
      RepeatTwice(s[..p]);
      assert s == s[..p] + s[p..];
    }
    if IsDoublet(x) && NumDigits(x) == 2 * p {
      LengthQuotient(p, 2);
      RepeatTwice(s[..p]);
      assert s == s[..p] + s[p..];
      assert x >= 1;
      RepetitionIsBlock(x, p, 2);
    }
  }

  lemma RepeatTwice(t: string)
    ensures RepeatStr(t, 2) == t + t
  {
    assert RepeatStr(t, 1) == t;
  }

  /** Every doublet is at least 11 = 1 + 10^1. */
  lemma DoubletAtLeast11(x: nat)
    requires IsDoublet(x)
    ensures x >= 11
  {
    NumDigitsIsLength(x);
    var p := NumDigits(x) / 2;
    DoubletByLength(x, p);
    BlockDigits(x, p, 2);
    assert Multiplier(p, 2) == 1 + Pow10(p) by {
      assert Multiplier(p, 1) == 1;
    }
    Pow10Monotone(1, p);
  }

  /** Σ of the doublets in [lo, hi] (0 when the range is empty). */
  function DoubletSum(lo: nat, hi: int): nat
    decreases hi - lo
  {
    if hi < lo then 0 else DoubletSum(lo, hi - 1) + (if IsDoublet(hi) then hi else 0)
  }

  lemma {:induction false} DoubletSumBelow11(lo: nat, hi: int)
    requires hi < 11
    ensures DoubletSum(lo, hi) == 0
    decreases hi - lo
  {
    if hi >= lo {
      DoubletSumBelow11(lo, hi - 1);
      if IsDoublet(hi) { DoubletAtLeast11(hi); }
    }
  }

  /** Raising the start to 11 loses no doublet. */
  lemma {:induction false} DoubletSumFrom11(lo: nat, hi: int)
    requires lo <= 11
    ensures DoubletSum(lo, hi) == DoubletSum(11, hi)
    decreases hi - lo
  {
    if hi >= lo {
      DoubletSumFrom11(lo, hi - 1);
      if hi < 11 && IsDoublet(hi) { DoubletAtLeast11(hi); }
    }
  }

  // ------------------------------------------------------------ closed forms

  function Max(a: int, b: int): int { if a >= b then a else b }

  function Min(a: int, b: int): int { if a <= b then a else b }

  /** a + (a + 1) + ... + b, and 0 when b < a. */
  function Series(a: int, b: int): int
    decreases b - a
  {
    if b < a then 0 else Series(a, b - 1) + b
  }

  lemma {:induction false} SeriesClosedForm(a: int, b: int)
    requires a <= b + 1
    ensures 2 * Series(a, b) == (b - a + 1) * (a + b)
    decreases b - a
  {
    if a <= b {
      SeriesClosedForm(a, b - 1);
      var n := b - a;
      assert (n + 1) * (a + b) == n * (a + b - 1) + 2 * b;
    }
  }

  /** `num_terms * (low + high) / 2`: the product is always even, so the
      halving is exact and gives the series. */
  function SeriesSum(low: nat, high: nat): (s: nat)
    requires low <= high
    ensures (high - low + 1) * (low + high) % 2 == 0
    ensures s == Series(low, high)
  {
    SeriesClosedForm(low, high);
    (high - low + 1) * (low + high) / 2
  }

  /** Σ of the numbers in [lo, hi] that are `k` copies of a `p`-digit block. */
  function BlockSum(lo: nat, hi: int, p: nat, k: nat): nat
    decreases hi - lo
  {
    if hi < lo then 0 else BlockSum(lo, hi - 1, p, k) + (if Block(hi, p, k) then hi else 0)
  }

  /** The smallest and largest seed whose repetition lies in [lo, hi]. */
  function SeedLow(lo: int, p: nat, k: nat): int
    requires p >= 1 && k >= 1
  {
    Max(Pow10(p - 1), CeilDiv(lo, Multiplier(p, k)))
  }

  function SeedHigh(hi: int, p: nat, k: nat): int
    requires p >= 1 && k >= 1
  {
    Min(Pow10(p) - 1, FloorDiv(hi, Multiplier(p, k)))
  }

  lemma MulLessCancel(a: int, b: int, m: int)
    requires m >= 1 && a * m < b * m
    ensures a < b
  {
    if a >= b {
      assert false;
    }
  }

  lemma FloorUnique(a: int, m: int, q: int)
    requires m >= 1 && q * m <= a < q * m + m
    ensures FloorDiv(a, m) == q
  {
    DivUnique(a, m, q, a - q * m);
  }

  /** The repetitions of `p`-digit seeds in [lo, hi] sum to the multiplier
      times the series of their seeds. */
  lemma {:induction false} BlockSumClosedForm(lo: nat, hi: int, p: nat, k: nat)
    requires p >= 1 && k >= 1
    ensures BlockSum(lo, hi, p, k) == Multiplier(p, k) * Series(SeedLow(lo, p, k), SeedHigh(hi, p, k))
    decreases hi - lo
  {
    if hi < lo {
      SeedsEmpty(lo, hi, p, k);
    } else {
      BlockSumClosedForm(lo, hi - 1, p, k);
      BlockStep(lo, hi, p, k);
    }
  }

  /** An empty range has no seeds. */
  lemma SeedsEmpty(lo: nat, hi: int, p: nat, k: nat)
    requires p >= 1 && k >= 1 && hi < lo
    ensures SeedHigh(hi, p, k) < SeedLow(lo, p, k)
  {
    var m := Multiplier(p, k);
    MulLessCancel(FloorDiv(hi, m), CeilDiv(lo, m), m);
  }

  /** Extending the range by `hi` adds `hi` to the series side exactly when
      `hi` is a repetition. */
  lemma BlockStep(lo: nat, hi: int, p: nat, k: nat)
    requires p >= 1 && k >= 1 && lo <= hi
    ensures Multiplier(p, k) * Series(SeedLow(lo, p, k), SeedHigh(hi, p, k))
         == Multiplier(p, k) * Series(SeedLow(lo, p, k), SeedHigh(hi - 1, p, k))
            + (if Block(hi, p, k) then hi else 0)
  {
    var m := Multiplier(p, k);
    if hi % m == 0 {
      BlockStepMultiple(lo, hi, p, k);
    } else {
      FloorStepOther(hi, m);
    }
  }

  lemma FloorStepOther(hi: int, m: int)
    requires m >= 1 && hi % m != 0
    ensures FloorDiv(hi - 1, m) == FloorDiv(hi, m)
  {
    var f := hi / m;
    assert hi == f * m + hi % m;
    FloorUnique(hi - 1, m, f);
  }

  lemma FloorStepMultiple(hi: int, m: int)
    requires m >= 1 && hi % m == 0
    ensures FloorDiv(hi, m) * m == hi
    ensures FloorDiv(hi - 1, m) == FloorDiv(hi, m) - 1
  {
    var f := hi / m;
    assert hi == f * m + hi % m;
    FloorUnique(hi - 1, m, f - 1);
  }

  /** The step at a multiple `hi` of the multiplier. */
  lemma BlockStepMultiple(lo: nat, hi: int, p: nat, k: nat)
    requires p >= 1 && k >= 1 && lo <= hi && hi % Multiplier(p, k) == 0
    ensures Multiplier(p, k) * Series(SeedLow(lo, p, k), SeedHigh(hi, p, k))
         == Multiplier(p, k) * Series(SeedLow(lo, p, k), SeedHigh(hi - 1, p, k))
            + (if Block(hi, p, k) then hi else 0)
  {
    var m := Multiplier(p, k);
    FloorStepMultiple(hi, m);
    if Pow10(p - 1) <= FloorDiv(hi, m) < Pow10(p) {
      BlockStepInBand(lo, hi, p, k);
    }
  }

  /** The step at a multiple `hi` whose seed has exactly `p` digits: the
      series gains that seed, and the multiplier maps it back to `hi`. */
  lemma BlockStepInBand(lo: nat, hi: int, p: nat, k: nat)
    requires p >= 1 && k >= 1 && lo <= hi
    requires FloorDiv(hi, Multiplier(p, k)) * Multiplier(p, k) == hi
    requires FloorDiv(hi - 1, Multiplier(p, k)) == FloorDiv(hi, Multiplier(p, k)) - 1
    requires Pow10(p - 1) <= FloorDiv(hi, Multiplier(p, k)) < Pow10(p)
    ensures Multiplier(p, k) * Series(SeedLow(lo, p, k), SeedHigh(hi, p, k))
         == Multiplier(p, k) * Series(SeedLow(lo, p, k), SeedHigh(hi - 1, p, k)) + hi
  {
    var m := Multiplier(p, k);
    var f := FloorDiv(hi, m);
    CeilNotAbove(lo, hi, m, CeilDiv(lo, m), f);
    assert SeedHigh(hi, p, k) == f && SeedHigh(hi - 1, p, k) == f - 1;
    SeriesTopStep(m, SeedLow(lo, p, k), f, hi);
  }

  /** The least multiple at or above `lo` is at most the multiple `hi`. */
  lemma CeilNotAbove(lo: int, hi: int, m: int, c: int, f: int)
    requires m >= 1 && lo <= hi && f * m == hi && c * m - m < lo
    ensures c <= f
  {
    assert (c - 1) * m == c * m - m;
    MulLessCancel(c - 1, f, m);
  }

  /** Adding the top seed `f` adds its multiple `hi` to the scaled series. */
  lemma SeriesTopStep(m: int, sl: int, f: int, hi: int)
    requires sl <= f && f * m == hi
    ensures m * Series(sl, f) == m * Series(sl, f - 1) + hi
  {
    Distribute(m, Series(sl, f - 1), f);
  }

  /** Σ over block lengths p in [a, b) of the `k`-fold repetitions in [lo, hi]. */
  function BlockSums(lo: nat, hi: int, a: nat, b: nat, k: nat): nat
    decreases b - a
  {
    if b <= a then 0 else BlockSums(lo, hi, a, b - 1, k) + BlockSum(lo, hi, b - 1, k)
  }

  /** The same sum for the single number `x`. */
  function PointSums(x: nat, a: nat, b: nat, k: nat): nat
    decreases b - a
  {
    if b <= a then 0 else PointSums(x, a, b - 1, k) + (if Block(x, b - 1, k) then x else 0)
  }

  lemma {:induction false} BlockSumsStep(lo: nat, hi: int, a: nat, b: nat, k: nat)
    requires lo <= hi
    ensures BlockSums(lo, hi, a, b, k) == BlockSums(lo, hi - 1, a, b, k) + PointSums(hi, a, b, k)
    decreases b - a
  {
    if b > a { BlockSumsStep(lo, hi, a, b - 1, k); }
  }

  lemma {:induction false} BlockSumsEmpty(lo: nat, hi: int, a: nat, b: nat, k: nat)
    requires hi < lo
    ensures BlockSums(lo, hi, a, b, k) == 0
    decreases b - a
  {
    if b > a { BlockSumsEmpty(lo, hi, a, b - 1, k); }
  }

  /** Only the half length of a doublet contributes. */
  lemma {:induction false} PointSumsDoublet(x: nat, a: nat, b: nat)
    requires IsDoublet(x) ==> a <= NumDigits(x) / 2 < b
    ensures PointSums(x, a, b, 2) == if IsDoublet(x) then x else 0
    decreases b - a
  {
    if b > a {
      var p := b - 1;
      if IsDoublet(x) && NumDigits(x) / 2 == p {
        DoubletHalf(x);
        forall q | a <= q < p
          ensures !Block(x, q, 2)
        {
          if Block(x, q, 2) { BlockHalf(x, q); }
        }
        PointSumsNone(x, a, p, 2);
      } else {
        if Block(x, p, 2) { BlockHalf(x, p); }
        PointSumsDoublet(x, a, p);
      }
    }
  }

  /** A doublet is the 2-fold repetition of its first half. */
  lemma DoubletHalf(x: nat)
    requires IsDoublet(x)
    ensures NumDigits(x) / 2 >= 1 && Block(x, NumDigits(x) / 2, 2)
  {
    NumDigitsIsLength(x);
    DoubletByLength(x, NumDigits(x) / 2);
  }

  /** A 2-fold repetition of a `p`-digit block is a doublet with `2p` digits. */
  lemma BlockHalf(x: nat, p: nat)
    requires Block(x, p, 2)
    ensures IsDoublet(x) && NumDigits(x) / 2 == p
  {
    DoubletByLength(x, p);
  }

  lemma {:induction false} PointSumsNone(x: nat, a: nat, b: nat, k: nat)
    requires forall p :: a <= p < b ==> !Block(x, p, k)
    ensures PointSums(x, a, b, k) == 0
    decreases b - a
  {
    if b > a { PointSumsNone(x, a, b - 1, k); }
  }

  /** A doublet in [lo, hi] has its half length between ⌈digits(lo)/2⌉
      and ⌊digits(hi)/2⌋. */
  lemma DoubletLengthBetween(lo: nat, hi: nat, a: nat, b: nat)
    requires lo <= hi && IsDoublet(hi)
    requires a <= CeilDiv(NumDigits(lo), 2) && FloorDiv(NumDigits(hi), 2) < b
    ensures a <= NumDigits(hi) / 2 < b
  {
    NumDigitsMonotone(lo, hi);
    var p := NumDigits(hi) / 2;
    DoubletHalf(hi);
    BlockDigits(hi, p, 2);
    assert NumDigits(hi) == 2 * p;
    assert FloorDiv(NumDigits(hi), 2) == p;
    assert CeilDiv(NumDigits(lo), 2) <= CeilDiv(NumDigits(hi), 2) == p;
  }

  /** Summing by half length covers every doublet once, when the lengths
      from ⌈digits(lo)/2⌉ to ⌊digits(hi)/2⌋ are all included. */
  lemma {:induction false} DoubletSumByLength(lo: nat, hi: int, a: nat, b: nat)
    requires a <= CeilDiv(NumDigits(lo), 2)
    requires hi >= 0 ==> FloorDiv(NumDigits(hi), 2) < b
    ensures DoubletSum(lo, hi) == BlockSums(lo, hi, a, b, 2)
    decreases hi - lo
  {
    if hi < lo {
      BlockSumsEmpty(lo, hi, a, b, 2);
    } else {
      if hi - 1 >= 0 { FloorHalfMonotone(hi - 1, hi); }
      DoubletSumByLength(lo, hi - 1, a, b);
      DoubletSumByLengthStep(lo, hi, a, b);
      BlockSumsStep(lo, hi, a, b, 2);
    }
  }

  lemma FloorHalfMonotone(m: nat, n: nat)
    requires m <= n
    ensures FloorDiv(NumDigits(m), 2) <= FloorDiv(NumDigits(n), 2)
  {
    NumDigitsMonotone(m, n);
  }

  /** The last number of [lo, hi] adds to the doublet sum what it adds to the sums by length. */
  lemma DoubletSumByLengthStep(lo: nat, hi: nat, a: nat, b: nat)
    requires lo <= hi
    requires a <= CeilDiv(NumDigits(lo), 2) && FloorDiv(NumDigits(hi), 2) < b
    ensures DoubletSum(lo, hi) == DoubletSum(lo, hi - 1) + PointSums(hi, a, b, 2)
  {
    if IsDoublet(hi) {
      DoubletLengthBetween(lo, hi, a, b);
    }
    PointSumsDoublet(hi, a, b);
  }

  /** The term one block length contributes: the multiplier times the
      series of seeds, or nothing when no seed fits. */
  function LengthTerm(lo: nat, hi: nat, p: nat, k: nat): (t: nat)
    requires p >= 1 && k >= 1
    ensures t == BlockSum(lo, hi, p, k)
  {
    var multiplier := Multiplier(p, k);
    var low := SeedLow(lo, p, k);
    var high := SeedHigh(hi, p, k);
    BlockSumClosedForm(lo, hi, p, k);
    if low > high then
      assert Series(low, high) == 0;
      0
    else
      var series := SeriesSum(low, high);
      assert series * multiplier == multiplier * Series(low, high);
      series * multiplier
  }

  /** `sum_doublets_in_range`: the sum of the doublets in [start, end]. */
  method SumDoubletsInRange(start: nat, end: nat) returns (sum: nat)
    ensures sum == DoubletSum(start, end)
  {
    if end < 11 {
      DoubletSumBelow11(start, end);
      return 0;
    }
    var lo := if start < 11 then 11 else start;
    if start < 11 { DoubletSumFrom11(start, end); }
    var minLen := CeilDiv(NumDigits(lo), 2);
    var maxLen := FloorDiv(NumDigits(end), 2);
    var len;
    sum, len := SumLengthTerms(lo, end, minLen, maxLen);
    DoubletSumByLength(lo, end, minLen, len);
  }

  /** The loop of `sum_doublets_in_range`: add the term of every half length
      from `minLen` to `maxLen`. */
  method SumLengthTerms(lo: nat, end: nat, minLen: nat, maxLen: int) returns (sum: nat, len: nat)
    requires minLen >= 1
    ensures minLen <= len && maxLen < len
    ensures sum == BlockSums(lo, end, minLen, len, 2)
  {
    sum := 0;
    len := minLen;
    while len <= maxLen
      invariant minLen <= len
      invariant sum == BlockSums(lo, end, minLen, len, 2)
      decreases maxLen + 1 - len
    {
      var term := LengthTerm(lo, end, len, 2);
      assert BlockSums(lo, end, minLen, len + 1, 2) == sum + term;
      sum := sum + term;
      len := len + 1;
    }
  }

  // ------------------------------------------------------------ Möbius

  /** `d` divides `n`. */
  predicate Divides(d: nat, n: nat)
    requires d >= 1
  {
    n % d == 0
  }

  /** The least factor of `n` that is at least `from`, when none below it divides `n`. */
  function LeastFactorFrom(n: nat, from: nat): (q: nat)
    requires 2 <= from <= n
    requires forall d :: 2 <= d < from ==> !Divides(d, n)
    ensures from <= q <= n && n % q == 0
    ensures forall d :: 2 <= d < q ==> !Divides(d, n)
    decreases n - from
  {
    SelfDivides(n);
    if Divides(from, n) then from else LeastFactorFrom(n, from + 1)
  }

  lemma SelfDivides(n: nat)
    requires n >= 1
    ensures Divides(n, n)
  {
  }

  /** The least factor q >= 2 of n >= 2; it is always prime. */
  function LeastFactor(n: nat): (q: nat)
    requires n >= 2
    ensures 2 <= q <= n && n % q == 0
    ensures forall d :: 2 <= d < q ==> !Divides(d, n)
  {
    LeastFactorFrom(n, 2)
  }

  predicate IsPrime(q: nat)
  {
    q >= 2 && forall d :: 2 <= d < q ==> !Divides(d, q)
  }

  /** μ(n): 0 for 0, 1 for 1, and otherwise peel off the least prime factor
      q: 0 when q divides n twice, and -μ(n / q) when it does not. */
  function Mu(n: nat): (mu: int)
    ensures -1 <= mu <= 1
    decreases n
  {
    if n == 0 then 0
    else if n == 1 then 1
    else
      var q := LeastFactor(n);
      DivideOut(n, q);
      var rest := n / q;
      if rest % q == 0 then 0 else -Mu(rest)
  }

  /** Divisibility is transitive. */
  lemma DividesTrans(d: nat, q: nat, n: nat)
    requires d >= 1 && q >= 1 && q % d == 0 && n % q == 0
    ensures Divides(d, n)
  {
    ExactQuotient(q, d);
    ExactQuotient(n, q);
    var a, b := q / d, n / q;
    assert n == (a * b) * d by {
      assert n == b * q == b * (a * d);
    }
    QuotientOfMultiple(a * b, d);
  }

  /** Peeling the least factor: `n = q * (n / q)`, and the cofactor is smaller. */
  lemma Cofactor(n: nat)
    requires n >= 2
    ensures var q := LeastFactor(n); n == q * (n / q) && 1 <= n / q < n
  {
    var q := LeastFactor(n);
    ExactQuotient(n, q);
    MulAtLeast(q, n / q);
  }

  lemma LeastFactorIsPrime(n: nat)
    requires n >= 2
    ensures IsPrime(LeastFactor(n))
  {
    var q := LeastFactor(n);
    forall d | 2 <= d < q
      ensures !Divides(d, q)
    {
      if Divides(d, q) { DividesTrans(d, q, n); }
    }
  }

  /** μ(n) = 0 only when a square q * q > 1 divides n. */
  lemma {:induction false} MuZeroSquare(n: nat) returns (q: nat)
    requires n >= 1 && Mu(n) == 0
    ensures q >= 2 && n % (q * q) == 0
    decreases n
  {
    var f := LeastFactor(n);
    var rest := n / f;
    Cofactor(n);
    if rest % f == 0 {
      q := f;
      ExactQuotient(rest, f);
      assert n == (rest / f) * (q * q);
      QuotientOfMultiple(rest / f, q * q);
    } else {
      q := MuZeroSquare(rest);
      DividesTrans(q * q, rest, n) by {
        assert n == rest * f;
        QuotientOfMultiple(f, rest);
      }
    }
  }

  function Product(ps: seq<nat>): nat
  {
    if ps == [] then 1 else ps[0] * Product(ps[1..])
  }

  function Sign(count: nat): int
  {
    if count % 2 == 0 then 1 else -1
  }

  /** μ(n) ≠ 0 only when n is a product of distinct primes, in increasing
      order, and then μ(n) is -1 to the number of them. */
  lemma {:induction false} MuNonzeroFactors(n: nat) returns (ps: seq<nat>)
    requires n >= 1 && Mu(n) != 0
    ensures Product(ps) == n
    ensures forall i :: 0 <= i < |ps| ==> IsPrime(ps[i])
    ensures forall i, j :: 0 <= i < j < |ps| ==> ps[i] < ps[j]
    ensures Mu(n) == Sign(|ps|)
    ensures n == 1 ==> ps == []
    ensures n >= 2 ==> ps != [] && ps[0] == LeastFactor(n)
    decreases n
  {
    if n == 1 {
      ps := [];
    } else {
      var q := LeastFactor(n);
      var rest := n / q;
      PeelNonzero(n);
      var tail := MuNonzeroFactors(rest);
      ps := Cons(q, tail);
      SignStep(|tail|);
    }
  }

  lemma SignStep(count: nat)
    ensures Sign(count + 1) == -Sign(count)
  {
  }

  /** Prepending a prime smaller than every element keeps the list increasing. */
  function Cons(q: nat, tail: seq<nat>): (ps: seq<nat>)
    requires IsPrime(q)
    requires forall i :: 0 <= i < |tail| ==> IsPrime(tail[i])
    requires forall i, j :: 0 <= i < j < |tail| ==> tail[i] < tail[j]
    requires tail != [] ==> q < tail[0]
    ensures |ps| == |tail| + 1 && ps[0] == q && ps[1..] == tail
    ensures Product(ps) == q * Product(tail)
    ensures forall i :: 0 <= i < |ps| ==> IsPrime(ps[i])
    ensures forall i, j :: 0 <= i < j < |ps| ==> ps[i] < ps[j]
  {
    [q] + tail
  }

  /** One peeling step when μ(n) ≠ 0: the least factor is prime, it does not
      divide the cofactor, the cofactor's own least factor is larger, and μ
      flips sign. */
  lemma PeelNonzero(n: nat)
    requires n >= 2 && Mu(n) != 0
    ensures var q := LeastFactor(n);
      var rest := n / q;
      && IsPrime(q) && 1 <= rest < n && n == q * rest && Mu(rest) != 0
      && Mu(n) == -Mu(rest)
      && (rest >= 2 ==> LeastFactor(rest) > q)
  {
    var q := LeastFactor(n);
    var rest := n / q;
    Cofactor(n);
    LeastFactorIsPrime(n);
    assert rest % q != 0;
    if rest >= 2 {
      var r := LeastFactor(rest);
      if r < q {
        DividesTrans(r, rest, n) by { QuotientOfMultiple(q, rest); }
        assert false;
      }
    }
  }

  /** No d in [2, p) divides n. */
  predicate NoFactorBelow(n: nat, p: nat)
  {
    forall d :: 2 <= d < p ==> !Divides(d, n)
  }

  /** `mobius`: trial division by 2, 3, 5, 7, 9, ... while p * p <= n,
      answering 0 at the first repeated factor. */
  method Mobius(n0: nat) returns (mu: int)
    ensures mu == Mu(n0)
  {
    if n0 == 0 {
      return 0;
    }
    if n0 == 1 {
      return 1;
    }
    var n := n0;
    mu := 1;
    var p := 2;
    while p * p <= n
      invariant 2 <= p && 1 <= n
      invariant p > 2 ==> p % 2 == 1
      invariant NoFactorBelow(n, p)
      invariant (mu == 1 && Mu(n0) == Mu(n)) || (mu == -1 && Mu(n0) == -Mu(n))
      decreases n as int - p
    {
      MulAtLeast(p, p);
      if n % p == 0 {
        var rest, repeated := StripFactor(n, p);
        if repeated {
          assert Mu(n) == 0;
          return 0;
        }
        n := rest;
        mu := -mu;
      }
      OddStep(n, p);
      p := p + if p == 2 then 1 else 2;
    }
    if n > 1 {
      PrimeAfterSieve(n, p);
      mu := -mu;
    }
  }

  /** The inner loop of `mobius`: divide `p` out of `n` once, and report
      whether it divides a second time, which makes μ(n) zero. */
  method StripFactor(n0: nat, p: nat) returns (n: nat, repeated: bool)
    requires 2 <= p <= n0 && n0 % p == 0 && NoFactorBelow(n0, p)
    ensures repeated ==> Mu(n0) == 0
    ensures !repeated ==> 1 <= n < n0 && Mu(n0) == -Mu(n) && NoFactorBelow(n, p + 1)
  {
    LeastFactorIs(n0, p);
    n := n0;
    var count := 0;
    while n % p == 0
      invariant 1 <= n && 0 <= count <= 1
      invariant count == 0 ==> n == n0
      invariant count == 1 ==> n == n0 / p
      decreases n
    {
      DivideOut(n, p);
      n := n / p;
      count := count + 1;
      if count > 1 {
        return n, true;
      }
    }
    CofactorSieved(n0, p);
    return n, false;
  }

  lemma LeastFactorIs(m: nat, p: nat)
    requires 2 <= p <= m && m % p == 0
    requires NoFactorBelow(m, p)
    ensures LeastFactor(m) == p
  {
    assert Divides(LeastFactor(m), m) && Divides(p, m);
  }

  /** The cofactor of the least factor `p` has no factor below `p` either. */
  lemma CofactorSieved(m: nat, p: nat)
    requires m >= 2 && LeastFactor(m) == p && (m / p) % p != 0
    ensures NoFactorBelow(m / p, p + 1)
  {
    var n := m / p;
    Cofactor(m);
    forall d | 2 <= d < p + 1
      ensures !Divides(d, n)
    {
      if d < p && Divides(d, n) {
        DividesTrans(d, n, m) by { QuotientOfMultiple(p, n); }
      }
    }
  }

  lemma DivideOut(n: nat, p: nat)
    requires p >= 2 && n >= 1 && n % p == 0
    ensures 1 <= n / p < n
  {
    ExactQuotient(n, p);
    MulAtLeast(p, n / p);
  }

  /** An odd `n` has no even factor, so the sieve may skip `p + 1`. */
  lemma OddStep(n: nat, p: nat)
    requires p >= 2 && n >= 1 && (p > 2 ==> p % 2 == 1)
    requires NoFactorBelow(n, p + 1)
    ensures NoFactorBelow(n, p + if p == 2 then 1 else 2)
    ensures (p + if p == 2 then 1 else 2) % 2 == 1
  {
    if p > 2 {
      if Divides(p + 1, n) {
        DividesTrans(2, p + 1, n);
        assert false;
      }
    }
  }

  /** What is left after the sieve is 1 or a prime. */
  lemma PrimeAfterSieve(n: nat, p: nat)
    requires n >= 2 && p >= 2 && p * p > n
    requires NoFactorBelow(n, p)
    ensures Mu(n) == -1
  {
    var q := LeastFactor(n);
    Cofactor(n);
    var r := n / q;
    assert Divides(q, n);
    if r >= 2 {
      var f := LeastFactor(r);
      DividesTrans(f, r, n) by { QuotientOfMultiple(q, r); }
      assert q <= f <= r;
      MulMonotone(p, q, r);
      assert false;
    }
    assert r == 1;
  }

  lemma MulMonotone(p: nat, q: nat, r: nat)
    requires p <= q <= r
    ensures p * p <= q * r
  {
  }

  // ------------------------------------------------------------ periods

  /** `s` is its first `d` characters written over and over: `d` divides
      |s| and every character equals the one at its index modulo `d`. */
  predicate Periodic(s: string, d: nat)
  {
    1 <= d <= |s| && |s| % d == 0 && forall i :: 0 <= i < |s| ==> s[i] == s[i % d]
  }

  /** The character `d` places after index `i`, cyclically. */
  function Rotated(s: string, d: nat, i: nat): char
    requires |s| >= 1
  {
    s[(i + d) % |s|]
  }

  /** Rotating `s` by `d` places leaves it unchanged. */
  predicate RotationInvariant(s: string, d: nat)
    requires |s| >= 1
  {
    forall i {:trigger Rotated(s, d, i)} :: 0 <= i < |s| ==> s[i] == Rotated(s, d, i)
  }

  lemma ModAddMultiple(c: int, d: int, r: int)
    requires d >= 1
    ensures (c * d + r) % d == r % d
  {
    var q := r / d;
    assert r == q * d + r % d;
    assert c * d + r == (c + q) * d + r % d;
    DivUnique(c * d + r, d, c + q, r % d);
  }

  /** Reducing modulo a multiple of `d` first does not change the residue mod `d`. */
  lemma ModMod(a: int, n: int, d: int)
    requires n >= 1 && d >= 1 && n % d == 0
    ensures (a % n) % d == a % d
  {
    var r := a % n;
    ExactQuotient(n, d);
    assert a == (a / n) * n + r;
    assert a == ((a / n) * (n / d)) * d + r by {
      assert (a / n) * n == (a / n) * ((n / d) * d);
    }
    ModAddMultiple((a / n) * (n / d), d, r);
  }

  lemma ModAdd(a: int, b: int, n: int)
    requires n >= 1
    ensures ((a % n) + b) % n == (a + b) % n
  {
    assert a + b == (a / n) * n + (a % n + b);
    ModAddMultiple(a / n, n, a % n + b);
  }

  lemma SmallMod(i: int, n: int)
    requires 0 <= i < n
    ensures i % n == i
  {
    DivUnique(i, n, 0, i);
  }

  /** The character at index `i` of a repeated block. */
  lemma {:induction false} RepeatStrIndex(t: string, k: nat, i: nat)
    requires |t| >= 1 && i < |t| * k
    ensures RepeatStr(t, k)[i] == t[i % |t|]
  {
    var n := |t|;
    assert k >= 1;
    if i < n * (k - 1) {
      RepeatStrIndex(t, k - 1, i);
    } else {
      assert n * (k - 1) + n == n * k;
      DivUnique(i, n, k - 1, i - n * (k - 1));
    }
  }

  /** The two descriptions of a repetition agree. */
  lemma RepetitionIffPeriodic(x: nat, p: nat)
    ensures IsRepetition(x, p) <==> Periodic(Show(x), p)
  {
    var s := Show(x);
    if IsRepetition(x, p) {
      var t := s[..p];
      forall i | 0 <= i < |s|
        ensures s[i] == s[i % p]
      {
        RepeatStrIndex(t, |s| / p, i);
      }
    }
    if Periodic(s, p) {
      var t := s[..p];
      var k := |s| / p;
      ExactQuotient(|s|, p);
      assert |RepeatStr(t, k)| == |s|;
      forall i | 0 <= i < |s|
        ensures RepeatStr(t, k)[i] == s[i]
      {
        RepeatStrIndex(t, k, i);
      }
    }
  }

  lemma PeriodicRotation(s: string, d: nat)
    requires Periodic(s, d)
    ensures RotationInvariant(s, d)
  {
    var n := |s|;
    forall i | 0 <= i < n
      ensures s[i] == Rotated(s, d, i)
    {
      ModMod(i + d, n, d);
      ModAddMultiple(1, d, i);
    }
  }

  lemma RotationPeriodic(s: string, d: nat)
    requires |s| >= 1 && 1 <= d <= |s| && |s| % d == 0 && RotationInvariant(s, d)
    ensures Periodic(s, d)
  {
    forall i | 0 <= i < |s|
      ensures s[i] == s[i % d]
    {
      RotationBack(s, d, i);
    }
  }

  lemma {:induction false} RotationBack(s: string, d: nat, i: nat)
    requires |s| >= 1 && 1 <= d && RotationInvariant(s, d) && i < |s|
    ensures s[i] == s[i % d]
    decreases i
  {
    if i < d {
      SmallMod(i, d);
    } else {
      RotationBack(s, d, i - d);
      SmallMod(i, |s|);
      assert s[i - d] == Rotated(s, d, i - d);
      ModAddMultiple(1, d, i - d);
    }
  }

  /** Two rotations that leave `s` unchanged give a third: their difference. */
  lemma RotationDifference(s: string, p: nat, q: nat)
    requires |s| >= 1 && q < p && RotationInvariant(s, p) && RotationInvariant(s, q)
    ensures RotationInvariant(s, p - q)
  {
    var n := |s|;
    forall i | 0 <= i < n
      ensures s[i] == Rotated(s, p - q, i)
    {
      var j := (i + (p - q)) % n;
      RotationIndex(i, p, q, n);
      assert s[j] == Rotated(s, q, j) == s[(i + p) % n];
      assert s[i] == Rotated(s, p, i);
    }
  }

  lemma RotationIndex(i: nat, p: nat, q: nat, n: nat)
    requires n >= 1 && q < p
    ensures 0 <= (i + (p - q)) % n < n
    ensures ((i + (p - q)) % n + q) % n == (i + p) % n
  {
    ModAdd(i + (p - q), q, n);
  }

  /** Greatest common divisor by repeated subtraction. */
  function Gcd(p: nat, q: nat): (g: nat)
    requires p >= 1 && q >= 1
    ensures 1 <= g <= p && g <= q
    ensures p % g == 0 && q % g == 0
    decreases p + q
  {
    if p == q then p
    else if p > q then
      var g := Gcd(p - q, q);
      SumDivisible(p - q, q, g);
      g
    else
      var g := Gcd(p, q - p);
      SumDivisible(q - p, p, g);
      g
  }

  lemma SumDivisible(a: nat, b: nat, g: nat)
    requires g >= 1 && a % g == 0 && b % g == 0
    ensures (a + b) % g == 0
  {
    ExactQuotient(a, g);
    ExactQuotient(b, g);
    assert a + b == (a / g + b / g) * g;
    QuotientOfMultiple(a / g + b / g, g);
  }

  lemma {:induction false} RotationGcd(s: string, p: nat, q: nat)
    requires |s| >= 1 && p >= 1 && q >= 1 && RotationInvariant(s, p) && RotationInvariant(s, q)
    ensures RotationInvariant(s, Gcd(p, q))
    decreases p + q
  {
    if p > q {
      RotationDifference(s, p, q);
      RotationGcd(s, p - q, q);
    } else if p < q {
      RotationDifference(s, q, p);
      RotationGcd(s, p, q - p);
    }
  }

  lemma PeriodicWhole(s: string)
    requires |s| >= 1
    ensures Periodic(s, |s|)
  {
    forall i | 0 <= i < |s|
      ensures s[i] == s[i % |s|]
    {
      SmallMod(i, |s|);
    }
  }

  /** The least `d` at or above `from` for which `s` is periodic. */
  function PeriodFrom(s: string, from: nat): (d: nat)
    requires 1 <= from <= |s|
    requires forall e :: 1 <= e < from ==> !Periodic(s, e)
    ensures from <= d && Periodic(s, d)
    ensures forall e :: 1 <= e < d ==> !Periodic(s, e)
    decreases |s| - from
  {
    PeriodicWhole(s);
    if Periodic(s, from) then from else PeriodFrom(s, from + 1)
  }

  /** The primitive period: the shortest block whose repetition is `s`. */
  function Period(s: string): (d: nat)
    requires |s| >= 1
    ensures Periodic(s, d)
    ensures forall e :: 1 <= e < d ==> !Periodic(s, e)
  {
    PeriodFrom(s, 1)
  }

  /** A block length that divides |s| is a period exactly when the primitive
      period divides it. */
  lemma PeriodDivides(s: string, d: nat)
    requires |s| >= 1 && 1 <= d <= |s| && |s| % d == 0
    ensures Periodic(s, d) <==> d % Period(s) == 0
  {
    var n, pp := |s|, Period(s);
    if Periodic(s, d) {
      PeriodicRotation(s, d);
      PeriodicRotation(s, pp);
      RotationGcd(s, pp, d);
      var g := Gcd(pp, d);
      DividesTrans(g, pp, n);
      RotationPeriodic(s, g);
      assert g == pp;
    }
    if d % pp == 0 {
      forall i | 0 <= i < n
        ensures s[i] == s[i % d]
      {
        ModMod(i, d, pp);
      }
    }
  }

  // ------------------------------------------------------------ divisors

  /** The divisors of `n` that are at most `m`, in increasing order. */
  function DivisorsUpTo(n: nat, m: nat): (ds: seq<nat>)
    ensures forall d :: d in ds <==> 1 <= d <= m && n % d == 0
    ensures forall i :: 0 <= i < |ds| ==> 1 <= ds[i] <= m
    ensures forall i, j :: 0 <= i < j < |ds| ==> ds[i] < ds[j]
  {
    if m == 0 then [] else DivisorsUpTo(n, m - 1) + (if n % m == 0 then [m] else [])
  }

  /** `divisors(n)`: the divisors of `n`, in increasing order. */
  function Divisors(n: nat): (ds: seq<nat>)
    ensures forall d :: d in ds <==> 1 <= d <= n && n % d == 0
    ensures forall i :: 0 <= i < |ds| ==> 1 <= ds[i] <= n
    ensures forall i, j :: 0 <= i < j < |ds| ==> ds[i] < ds[j]
  {
    DivisorsUpTo(n, n)
  }

  /** The filter `d * 2 <= len` that the source applies to the divisors of `len`. */
  function AtMostHalf(ds: seq<nat>, len: nat): (r: seq<nat>)
    ensures forall d :: d in r <==> d in ds && d * 2 <= len
    ensures (forall i, j :: 0 <= i < j < |ds| ==> ds[i] < ds[j]) ==> forall i, j :: 0 <= i < j < |r| ==> r[i] < r[j]
  {
    if ds == [] then []
    else
      var rest := AtMostHalf(ds[..|ds| - 1], len);
      var d := ds[|ds| - 1];
      assert forall e :: e in ds <==> e in ds[..|ds| - 1] || e == d;
      assert (forall i, j :: 0 <= i < j < |ds| ==> ds[i] < ds[j]) ==> forall k :: 0 <= k < |rest| ==> rest[k] < d by {
        if forall i, j :: 0 <= i < j < |ds| ==> ds[i] < ds[j] {
          forall k | 0 <= k < |rest|
            ensures rest[k] < d
          {
            assert rest[k] in ds[..|ds| - 1];
          }
        }
      }
      rest + (if d * 2 <= len then [d] else [])
  }

  /** The block lengths that can repeat at least twice in `len` digits: the
      divisors of `len` other than `len` itself. */
  function ProperDivisors(len: nat): (ds: seq<nat>)
    ensures forall d :: d in ds <==> 1 <= d && len % d == 0 && d * 2 <= len
    ensures forall i, j :: 0 <= i < j < |ds| ==> ds[i] < ds[j]
  {
    AtMostHalf(Divisors(len), len)
  }

  lemma MuSmall()
    ensures Mu(1) == 1 && Mu(2) == -1 && Mu(3) == -1 && Mu(4) == 0 && Mu(5) == -1
    ensures Mu(6) == 1 && Mu(7) == -1 && Mu(8) == 0 && Mu(9) == 0 && Mu(10) == 1
  {
    LeastFactorSmall();
    assert Mu(2) == -Mu(1);
    assert 3 / 3 == 1 && 1 % 3 == 1;
    assert Mu(3) == -Mu(1);
    assert Mu(4) == 0;
    assert Mu(5) == -Mu(1);
    assert Mu(6) == -Mu(3);
    assert 7 / 7 == 1 && 1 % 7 == 1;
    assert Mu(7) == -Mu(1);
    assert Mu(8) == 0;
    assert Mu(9) == 0;
    assert Mu(10) == -Mu(5);
  }

  lemma LeastFactorSmall()
    ensures LeastFactor(2) == 2 && LeastFactor(3) == 3 && LeastFactor(4) == 2 && LeastFactor(5) == 5
    ensures LeastFactor(6) == 2 && LeastFactor(7) == 7 && LeastFactor(8) == 2 && LeastFactor(9) == 3
    ensures LeastFactor(10) == 2
  {
    LeastFactorIs(2, 2);
    LeastFactorIs(3, 3);
    LeastFactorIs(4, 2);
    LeastFactorIs(5, 5);
    LeastFactorIs(6, 2);
    LeastFactorIs(7, 7);
    LeastFactorIs(8, 2);
    LeastFactorIs(9, 3);
    LeastFactorIs(10, 2);
  }

  /** Σ of μ(n / d) over the divisors d ≤ m of `n` that are multiples of `p`. */
  function MobiusCoefficient(n: nat, m: nat, p: nat): int
    requires p >= 1
  {
    if m == 0 then 0 else MobiusCoefficient(n, m - 1, p) + (if n % m == 0 && m % p == 0 then Mu(n / m) else 0)
  }

  lemma DivisorsOf1()
    ensures Divisors(1) == [1]
  {
  }

  lemma DivisorsOf2()
    ensures Divisors(2) == [1, 2]
  {
  }

  lemma DivisorsOf3()
    ensures Divisors(3) == [1, 3]
  {
  }

  lemma DivisorsOf4()
    ensures Divisors(4) == [1, 2, 4]
  {
  }

  lemma DivisorsOf5()
    ensures Divisors(5) == [1, 5]
  {
  }

  lemma DivisorsOf6()
    ensures Divisors(6) == [1, 2, 3, 6]
  {
  }

  lemma DivisorsOf7()
    ensures Divisors(7) == [1, 7]
  {
  }

  lemma DivisorsOf8()
    ensures Divisors(8) == [1, 2, 4, 8]
  {
  }

  lemma DivisorsOf9()
    ensures Divisors(9) == [1, 3, 9]
  {
  }

  lemma DivisorsOf10()
    ensures Divisors(10) == [1, 2, 5, 10]
  {
  }

  /** A divisor of a positive number is at most that number. */
  lemma DivisorAtMost(n: nat, p: nat)
    requires n >= 1 && p >= 1 && n % p == 0
    ensures p <= n
  {
    if p > n { SmallMod(n, p); }
  }

  /** Σ_{p | d | n} μ(n / d) is 1 when p = n and 0 for every other divisor
      p of n, for every n up to 10. */
  lemma MobiusSumSmall(n: nat, p: nat)
    requires 1 <= n <= 10 && 1 <= p && n % p == 0
    ensures MobiusCoefficient(n, n, p) == if n == p then 1 else 0
  {
    DivisorAtMost(n, p);
    assert p in Divisors(n);
    if n == 1 {
      DivisorsOf1();
      MobiusTable1(p);
    } else if n == 2 {
      DivisorsOf2();
      MobiusTable2(p);
    } else if n == 3 {
      DivisorsOf3();
      MobiusTable3(p);
    } else if n == 4 {
      DivisorsOf4();
      MobiusTable4(p);
    } else if n == 5 {
      DivisorsOf5();
      MobiusTable5(p);
    } else if n == 6 {
      DivisorsOf6();
      MobiusTable6(p);
    } else if n == 7 {
      DivisorsOf7();
      MobiusTable7(p);
    } else if n == 8 {
      DivisorsOf8();
      MobiusTable8(p);
    } else if n == 9 {
      DivisorsOf9();
      MobiusTable9(p);
    } else if n == 10 {
      DivisorsOf10();
      MobiusTable10(p);
    }
  }

  lemma MobiusTable1(p: nat)
    requires p in [1]
    ensures MobiusCoefficient(1, 1, p) == if p == 1 then 1 else 0
  {
    MobiusSum1By1();
  }

  lemma MobiusSum1By1()
    ensures MobiusCoefficient(1, 1, 1) == 1
  {
    MuSmall();
    assert 1 % 1 == 0 && 1 / 1 == 1;
  }

  lemma MobiusTable2(p: nat)
    requires p in [1, 2]
    ensures MobiusCoefficient(2, 2, p) == if p == 2 then 1 else 0
  {
    if p == 1 {
      MobiusSum2By1();
    } else {
      MobiusSum2By2();
    }
  }

  lemma MobiusSum2By1()
    ensures MobiusCoefficient(2, 2, 1) == 0
  {
    MuSmall();
    assert 2 % 1 == 0 && 2 / 1 == 2 && 2 % 2 == 0 && 2 / 2 == 1;
    assert MobiusCoefficient(2, 1, 1) == -1;
  }

  lemma MobiusSum2By2()
    ensures MobiusCoefficient(2, 2, 2) == 1
  {
    MuSmall();
    assert 2 % 1 == 0 && 2 / 1 == 2 && 2 % 2 == 0 && 2 / 2 == 1 && 1 % 2 == 1 && 2 % 2 == 0;
    assert MobiusCoefficient(2, 1, 2) == 0;
  }

  lemma MobiusTable3(p: nat)
    requires p in [1, 3]
    ensures MobiusCoefficient(3, 3, p) == if p == 3 then 1 else 0
  {
    if p == 1 {
      MobiusSum3By1();
    } else {
      MobiusSum3By3();
    }
  }

  lemma MobiusSum3By1()
    ensures MobiusCoefficient(3, 3, 1) == 0
  {
    MuSmall();
    assert 3 % 1 == 0 && 3 / 1 == 3 && 3 % 2 == 1 && 3 % 3 == 0 && 3 / 3 == 1;
    assert MobiusCoefficient(3, 1, 1) == -1;
    assert MobiusCoefficient(3, 2, 1) == -1;
  }

  lemma MobiusSum3By3()
    ensures MobiusCoefficient(3, 3, 3) == 1
  {
    MuSmall();
    assert 3 % 1 == 0 && 3 / 1 == 3 && 3 % 2 == 1 && 3 % 3 == 0 && 3 / 3 == 1 && 1 % 3 == 1 && 2 % 3 == 2;
    assert 3 % 3 == 0;
    assert MobiusCoefficient(3, 1, 3) == 0;
    assert MobiusCoefficient(3, 2, 3) == 0;
  }

  lemma MobiusTable4(p: nat)
    requires p in [1, 2, 4]
    ensures MobiusCoefficient(4, 4, p) == if p == 4 then 1 else 0
  {
    if p == 1 {
      MobiusSum4By1();
    } else if p == 2 {
      MobiusSum4By2();
    } else {
      MobiusSum4By4();
    }
  }

  lemma MobiusSum4By1()
    ensures MobiusCoefficient(4, 4, 1) == 0
  {
    MuSmall();
    assert 4 % 1 == 0 && 4 / 1 == 4 && 4 % 2 == 0 && 4 / 2 == 2 && 4 % 3 == 1 && 4 % 4 == 0 && 4 / 4 == 1;
    assert MobiusCoefficient(4, 1, 1) == 0;
    assert MobiusCoefficient(4, 2, 1) == -1;
    assert MobiusCoefficient(4, 3, 1) == -1;
  }

  lemma MobiusSum4By2()
    ensures MobiusCoefficient(4, 4, 2) == 0
  {
    MuSmall();
    assert 4 % 1 == 0 && 4 / 1 == 4 && 4 % 2 == 0 && 4 / 2 == 2 && 4 % 3 == 1 && 4 % 4 == 0 && 4 / 4 == 1 && 1 % 2 == 1;
    assert 2 % 2 == 0 && 3 % 2 == 1 && 4 % 2 == 0;
    assert MobiusCoefficient(4, 1, 2) == 0;
    assert MobiusCoefficient(4, 2, 2) == -1;
    assert MobiusCoefficient(4, 3, 2) == -1;
  }

  lemma MobiusSum4By4()
    ensures MobiusCoefficient(4, 4, 4) == 1
  {
    MuSmall();
    assert 4 % 1 == 0 && 4 / 1 == 4 && 4 % 2 == 0 && 4 / 2 == 2 && 4 % 3 == 1 && 4 % 4 == 0 && 4 / 4 == 1 && 1 % 4 == 1;
    assert 2 % 4 == 2 && 3 % 4 == 3 && 4 % 4 == 0;
    assert MobiusCoefficient(4, 1, 4) == 0;
    assert MobiusCoefficient(4, 2, 4) == 0;
    assert MobiusCoefficient(4, 3, 4) == 0;
  }

  lemma MobiusTable5(p: nat)
    requires p in [1, 5]
    ensures MobiusCoefficient(5, 5, p) == if p == 5 then 1 else 0
  {
    if p == 1 {
      MobiusSum5By1();
    } else {
      MobiusSum5By5();
    }
  }

  lemma MobiusSum5By1()
    ensures MobiusCoefficient(5, 5, 1) == 0
  {
    MuSmall();
    assert 5 % 1 == 0 && 5 / 1 == 5 && 5 % 2 == 1 && 5 % 3 == 2 && 5 % 4 == 1 && 5 % 5 == 0 && 5 / 5 == 1;
    assert MobiusCoefficient(5, 1, 1) == -1;
    assert MobiusCoefficient(5, 2, 1) == -1;
    assert MobiusCoefficient(5, 3, 1) == -1;
    assert MobiusCoefficient(5, 4, 1) == -1;
  }

  lemma MobiusSum5By5()
    ensures MobiusCoefficient(5, 5, 5) == 1
  {
    MuSmall();
    assert 5 % 1 == 0 && 5 / 1 == 5 && 5 % 2 == 1 && 5 % 3 == 2 && 5 % 4 == 1 && 5 % 5 == 0 && 5 / 5 == 1;
    assert 1 % 5 == 1 && 2 % 5 == 2 && 3 % 5 == 3 && 4 % 5 == 4 && 5 % 5 == 0;
    assert MobiusCoefficient(5, 1, 5) == 0;
    assert MobiusCoefficient(5, 2, 5) == 0;
    assert MobiusCoefficient(5, 3, 5) == 0;
    assert MobiusCoefficient(5, 4, 5) == 0;
  }

  lemma MobiusTable6(p: nat)
    requires p in [1, 2, 3, 6]
    ensures MobiusCoefficient(6, 6, p) == if p == 6 then 1 else 0
  {
    if p == 1 {
      MobiusSum6By1();
    } else if p == 2 {
      MobiusSum6By2();
    } else if p == 3 {
      MobiusSum6By3();
    } else {
      MobiusSum6By6();
    }
  }

  lemma MobiusSum6By1()
    ensures MobiusCoefficient(6, 6, 1) == 0
  {
    MuSmall();
    assert 6 % 1 == 0 && 6 / 1 == 6 && 6 % 2 == 0 && 6 / 2 == 3 && 6 % 3 == 0 && 6 / 3 == 2 && 6 % 4 == 2 && 6 % 5 == 1;
    assert 6 % 6 == 0 && 6 / 6 == 1;
    assert MobiusCoefficient(6, 1, 1) == 1;
    assert MobiusCoefficient(6, 2, 1) == 0;
    assert MobiusCoefficient(6, 3, 1) == -1;
    assert MobiusCoefficient(6, 4, 1) == -1;
    assert MobiusCoefficient(6, 5, 1) == -1;
  }

  lemma MobiusSum6By2()
    ensures MobiusCoefficient(6, 6, 2) == 0
  {
    MuSmall();
    assert 6 % 1 == 0 && 6 / 1 == 6 && 6 % 2 == 0 && 6 / 2 == 3 && 6 % 3 == 0 && 6 / 3 == 2 && 6 % 4 == 2 && 6 % 5 == 1;
    assert 6 % 6 == 0 && 6 / 6 == 1 && 1 % 2 == 1 && 2 % 2 == 0 && 3 % 2 == 1 && 4 % 2 == 0;
    assert 5 % 2 == 1 && 6 % 2 == 0;
    assert MobiusCoefficient(6, 1, 2) == 0;
    assert MobiusCoefficient(6, 2, 2) == -1;
    assert MobiusCoefficient(6, 3, 2) == -1;
    assert MobiusCoefficient(6, 4, 2) == -1;
    assert MobiusCoefficient(6, 5, 2) == -1;
  }

  lemma MobiusSum6By3()
    ensures MobiusCoefficient(6, 6, 3) == 0
  {
    MuSmall();
    assert 6 % 1 == 0 && 6 / 1 == 6 && 6 % 2 == 0 && 6 / 2 == 3 && 6 % 3 == 0 && 6 / 3 == 2 && 6 % 4 == 2 && 6 % 5 == 1;
    assert 6 % 6 == 0 && 6 / 6 == 1 && 1 % 3 == 1 && 2 % 3 == 2 && 3 % 3 == 0 && 4 % 3 == 1;
    assert 5 % 3 == 2 && 6 % 3 == 0;
    assert MobiusCoefficient(6, 1, 3) == 0;
    assert MobiusCoefficient(6, 2, 3) == 0;
    assert MobiusCoefficient(6, 3, 3) == -1;
    assert MobiusCoefficient(6, 4, 3) == -1;
    assert MobiusCoefficient(6, 5, 3) == -1;
  }

  lemma MobiusSum6By6()
    ensures MobiusCoefficient(6, 6, 6) == 1
  {
    MuSmall();
    assert 6 % 1 == 0 && 6 / 1 == 6 && 6 % 2 == 0 && 6 / 2 == 3 && 6 % 3 == 0 && 6 / 3 == 2 && 6 % 4 == 2 && 6 % 5 == 1;
    assert 6 % 6 == 0 && 6 / 6 == 1 && 1 % 6 == 1 && 2 % 6 == 2 && 3 % 6 == 3 && 4 % 6 == 4;
    assert 5 % 6 == 5 && 6 % 6 == 0;
    assert MobiusCoefficient(6, 1, 6) == 0;
    assert MobiusCoefficient(6, 2, 6) == 0;
    assert MobiusCoefficient(6, 3, 6) == 0;
    assert MobiusCoefficient(6, 4, 6) == 0;
    assert MobiusCoefficient(6, 5, 6) == 0;
  }

  lemma MobiusTable7(p: nat)
    requires p in [1, 7]
    ensures MobiusCoefficient(7, 7, p) == if p == 7 then 1 else 0
  {
    if p == 1 {
      MobiusSum7By1();
    } else {
      MobiusSum7By7();
    }
  }

  lemma MobiusSum7By1()
    ensures MobiusCoefficient(7, 7, 1) == 0
  {
    MuSmall();
    assert 7 % 1 == 0 && 7 / 1 == 7 && 7 % 2 == 1 && 7 % 3 == 1 && 7 % 4 == 3 && 7 % 5 == 2;
    assert 7 % 6 == 1 && 7 % 7 == 0 && 7 / 7 == 1;
    assert MobiusCoefficient(7, 1, 1) == -1;
    assert MobiusCoefficient(7, 2, 1) == -1;
    assert MobiusCoefficient(7, 3, 1) == -1;
    assert MobiusCoefficient(7, 4, 1) == -1;
    assert MobiusCoefficient(7, 5, 1) == -1;
    assert MobiusCoefficient(7, 6, 1) == -1;
  }

  lemma MobiusSum7By7()
    ensures MobiusCoefficient(7, 7, 7) == 1
  {
    MuSmall();
    assert 7 % 1 == 0 && 7 / 1 == 7 && 7 % 2 == 1 && 7 % 3 == 1 && 7 % 4 == 3 && 7 % 5 == 2;
    assert 7 % 6 == 1 && 7 % 7 == 0 && 7 / 7 == 1 && 1 % 7 == 1 && 2 % 7 == 2 && 3 % 7 == 3;
    assert 4 % 7 == 4 && 5 % 7 == 5 && 6 % 7 == 6 && 7 % 7 == 0;
    assert MobiusCoefficient(7, 1, 7) == 0;
    assert MobiusCoefficient(7, 2, 7) == 0;
    assert MobiusCoefficient(7, 3, 7) == 0;
    assert MobiusCoefficient(7, 4, 7) == 0;
    assert MobiusCoefficient(7, 5, 7) == 0;
    assert MobiusCoefficient(7, 6, 7) == 0;
  }

  lemma MobiusTable8(p: nat)
    requires p in [1, 2, 4, 8]
    ensures MobiusCoefficient(8, 8, p) == if p == 8 then 1 else 0
  {
    if p == 1 {
      MobiusSum8By1();
    } else if p == 2 {
      MobiusSum8By2();
    } else if p == 4 {
      MobiusSum8By4();
    } else {
      MobiusSum8By8();
    }
  }

  lemma MobiusSum8By1()
    ensures MobiusCoefficient(8, 8, 1) == 0
  {
    MuSmall();
    assert 8 % 1 == 0 && 8 / 1 == 8 && 8 % 2 == 0 && 8 / 2 == 4 && 8 % 3 == 2 && 8 % 4 == 0 && 8 / 4 == 2 && 8 % 5 == 3;
    assert 8 % 6 == 2 && 8 % 7 == 1 && 8 % 8 == 0 && 8 / 8 == 1;
    assert MobiusCoefficient(8, 1, 1) == 0;
    assert MobiusCoefficient(8, 2, 1) == 0;
    assert MobiusCoefficient(8, 3, 1) == 0;
    assert MobiusCoefficient(8, 4, 1) == -1;
    assert MobiusCoefficient(8, 5, 1) == -1;
    assert MobiusCoefficient(8, 6, 1) == -1;
    assert MobiusCoefficient(8, 7, 1) == -1;
  }

  lemma MobiusSum8By2()
    ensures MobiusCoefficient(8, 8, 2) == 0
  {
    MuSmall();
    assert 8 % 1 == 0 && 8 / 1 == 8 && 8 % 2 == 0 && 8 / 2 == 4 && 8 % 3 == 2 && 8 % 4 == 0 && 8 / 4 == 2 && 8 % 5 == 3;
    assert 8 % 6 == 2 && 8 % 7 == 1 && 8 % 8 == 0 && 8 / 8 == 1 && 1 % 2 == 1 && 2 % 2 == 0;
    assert 3 % 2 == 1 && 4 % 2 == 0 && 5 % 2 == 1 && 6 % 2 == 0 && 7 % 2 == 1;
    assert 8 % 2 == 0;
    assert MobiusCoefficient(8, 1, 2) == 0;
    assert MobiusCoefficient(8, 2, 2) == 0;
    assert MobiusCoefficient(8, 3, 2) == 0;
    assert MobiusCoefficient(8, 4, 2) == -1;
    assert MobiusCoefficient(8, 5, 2) == -1;
    assert MobiusCoefficient(8, 6, 2) == -1;
    assert MobiusCoefficient(8, 7, 2) == -1;
  }

  lemma MobiusSum8By4()
    ensures MobiusCoefficient(8, 8, 4) == 0
  {
    MuSmall();
    assert 8 % 1 == 0 && 8 / 1 == 8 && 8 % 2 == 0 && 8 / 2 == 4 && 8 % 3 == 2 && 8 % 4 == 0 && 8 / 4 == 2 && 8 % 5 == 3;
    assert 8 % 6 == 2 && 8 % 7 == 1 && 8 % 8 == 0 && 8 / 8 == 1 && 1 % 4 == 1 && 2 % 4 == 2;
    assert 3 % 4 == 3 && 4 % 4 == 0 && 5 % 4 == 1 && 6 % 4 == 2 && 7 % 4 == 3;
    assert 8 % 4 == 0;
    assert MobiusCoefficient(8, 1, 4) == 0;
    assert MobiusCoefficient(8, 2, 4) == 0;
    assert MobiusCoefficient(8, 3, 4) == 0;
    assert MobiusCoefficient(8, 4, 4) == -1;
    assert MobiusCoefficient(8, 5, 4) == -1;
    assert MobiusCoefficient(8, 6, 4) == -1;
    assert MobiusCoefficient(8, 7, 4) == -1;
  }

  lemma MobiusSum8By8()
    ensures MobiusCoefficient(8, 8, 8) == 1
  {
    MuSmall();
    assert 8 % 1 == 0 && 8 / 1 == 8 && 8 % 2 == 0 && 8 / 2 == 4 && 8 % 3 == 2 && 8 % 4 == 0 && 8 / 4 == 2 && 8 % 5 == 3;
    assert 8 % 6 == 2 && 8 % 7 == 1 && 8 % 8 == 0 && 8 / 8 == 1 && 1 % 8 == 1 && 2 % 8 == 2;
    assert 3 % 8 == 3 && 4 % 8 == 4 && 5 % 8 == 5 && 6 % 8 == 6 && 7 % 8 == 7;
    assert 8 % 8 == 0;
    assert MobiusCoefficient(8, 1, 8) == 0;
    assert MobiusCoefficient(8, 2, 8) == 0;
    assert MobiusCoefficient(8, 3, 8) == 0;
    assert MobiusCoefficient(8, 4, 8) == 0;
    assert MobiusCoefficient(8, 5, 8) == 0;
    assert MobiusCoefficient(8, 6, 8) == 0;
    assert MobiusCoefficient(8, 7, 8) == 0;
  }

  lemma MobiusTable9(p: nat)
    requires p in [1, 3, 9]
    ensures MobiusCoefficient(9, 9, p) == if p == 9 then 1 else 0
  {
    if p == 1 {
      MobiusSum9By1();
    } else if p == 3 {
      MobiusSum9By3();
    } else {
      MobiusSum9By9();
    }
  }

  lemma MobiusSum9By1()
    ensures MobiusCoefficient(9, 9, 1) == 0
  {
    MuSmall();
    assert 9 % 1 == 0 && 9 / 1 == 9 && 9 % 2 == 1 && 9 % 3 == 0 && 9 / 3 == 3;
    assert 9 % 4 == 1 && 9 % 5 == 4 && 9 % 6 == 3 && 9 % 7 == 2 && 9 % 8 == 1 && 9 % 9 == 0 && 9 / 9 == 1;
    assert MobiusCoefficient(9, 1, 1) == 0;
    assert MobiusCoefficient(9, 2, 1) == 0;
    assert MobiusCoefficient(9, 3, 1) == -1;
    assert MobiusCoefficient(9, 4, 1) == -1;
    assert MobiusCoefficient(9, 5, 1) == -1;
    assert MobiusCoefficient(9, 6, 1) == -1;
    assert MobiusCoefficient(9, 7, 1) == -1;
    assert MobiusCoefficient(9, 8, 1) == -1;
  }

  lemma MobiusSum9By3()
    ensures MobiusCoefficient(9, 9, 3) == 0
  {
    MuSmall();
    assert 9 % 1 == 0 && 9 / 1 == 9 && 9 % 2 == 1 && 9 % 3 == 0 && 9 / 3 == 3 && 9 % 4 == 1 && 9 % 5 == 4;
    assert 9 % 6 == 3 && 9 % 7 == 2 && 9 % 8 == 1 && 9 % 9 == 0 && 9 / 9 == 1 && 1 % 3 == 1;
    assert 2 % 3 == 2 && 3 % 3 == 0 && 4 % 3 == 1 && 5 % 3 == 2 && 6 % 3 == 0;
    assert 7 % 3 == 1 && 8 % 3 == 2 && 9 % 3 == 0;
    assert MobiusCoefficient(9, 1, 3) == 0;
    assert MobiusCoefficient(9, 2, 3) == 0;
    assert MobiusCoefficient(9, 3, 3) == -1;
    assert MobiusCoefficient(9, 4, 3) == -1;
    assert MobiusCoefficient(9, 5, 3) == -1;
    assert MobiusCoefficient(9, 6, 3) == -1;
    assert MobiusCoefficient(9, 7, 3) == -1;
    assert MobiusCoefficient(9, 8, 3) == -1;
  }

  lemma MobiusSum9By9()
    ensures MobiusCoefficient(9, 9, 9) == 1
  {
    MuSmall();
    assert 9 % 1 == 0 && 9 / 1 == 9 && 9 % 2 == 1 && 9 % 3 == 0 && 9 / 3 == 3 && 9 % 4 == 1 && 9 % 5 == 4;
    assert 9 % 6 == 3 && 9 % 7 == 2 && 9 % 8 == 1 && 9 % 9 == 0 && 9 / 9 == 1 && 1 % 9 == 1;
    assert 2 % 9 == 2 && 3 % 9 == 3 && 4 % 9 == 4 && 5 % 9 == 5 && 6 % 9 == 6;
    assert 7 % 9 == 7 && 8 % 9 == 8 && 9 % 9 == 0;
    assert MobiusCoefficient(9, 1, 9) == 0;
    assert MobiusCoefficient(9, 2, 9) == 0;
    assert MobiusCoefficient(9, 3, 9) == 0;
    assert MobiusCoefficient(9, 4, 9) == 0;
    assert MobiusCoefficient(9, 5, 9) == 0;
    assert MobiusCoefficient(9, 6, 9) == 0;
    assert MobiusCoefficient(9, 7, 9) == 0;
    assert MobiusCoefficient(9, 8, 9) == 0;
  }

  lemma MobiusTable10(p: nat)
    requires p in [1, 2, 5, 10]
    ensures MobiusCoefficient(10, 10, p) == if p == 10 then 1 else 0
  {
    if p == 1 {
      MobiusSum10By1();
    } else if p == 2 {
      MobiusSum10By2();
    } else if p == 5 {
      MobiusSum10By5();
    } else {
      MobiusSum10By10();
    }
  }

  lemma MobiusSum10By1()
    ensures MobiusCoefficient(10, 10, 1) == 0
  {
    MuSmall();
    assert 10 % 1 == 0 && 10 / 1 == 10 && 10 % 2 == 0 && 10 / 2 == 5 && 10 % 3 == 1 && 10 % 4 == 2 && 10 % 5 == 0 && 10 / 5 == 2;
    assert 10 % 6 == 4 && 10 % 7 == 3 && 10 % 8 == 2 && 10 % 9 == 1 && 10 % 10 == 0 && 10 / 10 == 1;
    assert MobiusCoefficient(10, 1, 1) == 1;
    assert MobiusCoefficient(10, 2, 1) == 0;
    assert MobiusCoefficient(10, 3, 1) == 0;
    assert MobiusCoefficient(10, 4, 1) == 0;
    assert MobiusCoefficient(10, 5, 1) == -1;
    assert MobiusCoefficient(10, 6, 1) == -1;
    assert MobiusCoefficient(10, 7, 1) == -1;
    assert MobiusCoefficient(10, 8, 1) == -1;
    assert MobiusCoefficient(10, 9, 1) == -1;
  }

  lemma MobiusSum10By2()
    ensures MobiusCoefficient(10, 10, 2) == 0
  {
    MuSmall();
    assert 10 % 1 == 0 && 10 / 1 == 10 && 10 % 2 == 0 && 10 / 2 == 5 && 10 % 3 == 1 && 10 % 4 == 2 && 10 % 5 == 0 && 10 / 5 == 2;
    assert 10 % 6 == 4 && 10 % 7 == 3 && 10 % 8 == 2 && 10 % 9 == 1 && 10 % 10 == 0 && 10 / 10 == 1;
    assert 1 % 2 == 1 && 2 % 2 == 0 && 3 % 2 == 1 && 4 % 2 == 0 && 5 % 2 == 1;
    assert 6 % 2 == 0 && 7 % 2 == 1 && 8 % 2 == 0 && 9 % 2 == 1 && 10 % 2 == 0;
    assert MobiusCoefficient(10, 1, 2) == 0;
    assert MobiusCoefficient(10, 2, 2) == -1;
    assert MobiusCoefficient(10, 3, 2) == -1;
    assert MobiusCoefficient(10, 4, 2) == -1;
    assert MobiusCoefficient(10, 5, 2) == -1;
    assert MobiusCoefficient(10, 6, 2) == -1;
    assert MobiusCoefficient(10, 7, 2) == -1;
    assert MobiusCoefficient(10, 8, 2) == -1;
    assert MobiusCoefficient(10, 9, 2) == -1;
  }

  lemma MobiusSum10By5()
    ensures MobiusCoefficient(10, 10, 5) == 0
  {
    MuSmall();
    assert 10 % 1 == 0 && 10 / 1 == 10 && 10 % 2 == 0 && 10 / 2 == 5 && 10 % 3 == 1 && 10 % 4 == 2 && 10 % 5 == 0 && 10 / 5 == 2;
    assert 10 % 6 == 4 && 10 % 7 == 3 && 10 % 8 == 2 && 10 % 9 == 1 && 10 % 10 == 0 && 10 / 10 == 1;
    assert 1 % 5 == 1 && 2 % 5 == 2 && 3 % 5 == 3 && 4 % 5 == 4 && 5 % 5 == 0;
    assert 6 % 5 == 1 && 7 % 5 == 2 && 8 % 5 == 3 && 9 % 5 == 4 && 10 % 5 == 0;
    assert MobiusCoefficient(10, 1, 5) == 0;
    assert MobiusCoefficient(10, 2, 5) == 0;
    assert MobiusCoefficient(10, 3, 5) == 0;
    assert MobiusCoefficient(10, 4, 5) == 0;
    assert MobiusCoefficient(10, 5, 5) == -1;
    assert MobiusCoefficient(10, 6, 5) == -1;
    assert MobiusCoefficient(10, 7, 5) == -1;
    assert MobiusCoefficient(10, 8, 5) == -1;
    assert MobiusCoefficient(10, 9, 5) == -1;
  }

  lemma MobiusSum10By10()
    ensures MobiusCoefficient(10, 10, 10) == 1
  {
    MuSmall();
    assert 10 % 1 == 0 && 10 / 1 == 10 && 10 % 2 == 0 && 10 / 2 == 5 && 10 % 3 == 1 && 10 % 4 == 2 && 10 % 5 == 0 && 10 / 5 == 2;
    assert 10 % 6 == 4 && 10 % 7 == 3 && 10 % 8 == 2 && 10 % 9 == 1 && 10 % 10 == 0 && 10 / 10 == 1;
    assert 1 % 10 == 1 && 2 % 10 == 2 && 3 % 10 == 3 && 4 % 10 == 4 && 5 % 10 == 5;
    assert 6 % 10 == 6 && 7 % 10 == 7 && 8 % 10 == 8 && 9 % 10 == 9 && 10 % 10 == 0;
    assert MobiusCoefficient(10, 1, 10) == 0;
    assert MobiusCoefficient(10, 2, 10) == 0;
    assert MobiusCoefficient(10, 3, 10) == 0;
    assert MobiusCoefficient(10, 4, 10) == 0;
    assert MobiusCoefficient(10, 5, 10) == 0;
    assert MobiusCoefficient(10, 6, 10) == 0;
    assert MobiusCoefficient(10, 7, 10) == 0;
    assert MobiusCoefficient(10, 8, 10) == 0;
    assert MobiusCoefficient(10, 9, 10) == 0;
  }

  // ------------------------------------------------------------ non-primitive ids

  /** `x` is the concatenation of at least two copies of one string. */
  predicate IsNonprimitive(x: nat)
  {
    exists p :: 1 <= p < |Show(x)| && IsRepetition(x, p)
  }

  /** Non-primitive exactly when the primitive period is shorter than the
      whole representation. */
  lemma NonprimitiveIffPeriod(x: nat)
    ensures IsNonprimitive(x) <==> Period(Show(x)) < |Show(x)|
  {
    var s := Show(x);
    if IsNonprimitive(x) {
      var p :| 1 <= p < |s| && IsRepetition(x, p);
      RepetitionIffPeriodic(x, p);
    }
    if Period(s) < |s| {
      RepetitionIffPeriodic(x, Period(s));
    }
  }

  /** Every doublet is non-primitive: part 2 counts everything part 1 counts. */
  lemma DoubletIsNonprimitive(x: nat)
    requires IsDoublet(x)
    ensures IsNonprimitive(x)
  {
    DoubletHalf(x);
    var p := NumDigits(x) / 2;
    BlockIsRepetition(x, p, 2);
    assert 1 <= p < |Show(x)| && IsRepetition(x, p);
  }

  lemma {:induction false} MultiplierMonotone(p: nat, j: nat, k: nat)
    requires j <= k
    ensures Multiplier(p, j) <= Multiplier(p, k)
    decreases k - j
  {
    if j < k { MultiplierMonotone(p, j, k - 1); }
  }

  /** A non-primitive id repeats a non-zero block at least twice, so it is
      at least 1 + 10^1. */
  lemma NonprimitiveAtLeast11(x: nat)
    requires IsNonprimitive(x)
    ensures x >= 11
  {
    var s := Show(x);
    var p :| 1 <= p < |s| && IsRepetition(x, p);
    var k := |s| / p;
    ExactQuotient(|s|, p);
    ProperDivisorHalf(|s|, p);
    RepetitionIsBlock(x, p, k);
    BlockDigits(x, p, k);
    MultiplierMonotone(p, 2, k);
    assert Multiplier(p, 2) == 1 + Pow10(p) by {
      assert Multiplier(p, 1) == 1;
    }
    Pow10Monotone(1, p);
  }

  /** Σ of the non-primitive ids in [lo, hi] (0 when the range is empty). */
  function NonprimitiveSum(lo: nat, hi: int): nat
    decreases hi - lo
  {
    if hi < lo then 0 else NonprimitiveSum(lo, hi - 1) + (if IsNonprimitive(hi) then hi else 0)
  }

  lemma {:induction false} NonprimitiveSumBelow11(lo: nat, hi: int)
    requires hi < 11
    ensures NonprimitiveSum(lo, hi) == 0
    decreases hi - lo
  {
    if hi >= lo {
      NonprimitiveSumBelow11(lo, hi - 1);
      if IsNonprimitive(hi) { NonprimitiveAtLeast11(hi); }
    }
  }

  /** Part 2 never sums less than part 1 over the same range. */
  lemma {:induction false} DoubletSumAtMostNonprimitiveSum(lo: nat, hi: int)
    ensures DoubletSum(lo, hi) <= NonprimitiveSum(lo, hi)
    decreases hi - lo
  {
    if hi >= lo {
      DoubletSumAtMostNonprimitiveSum(lo, hi - 1);
      if IsDoublet(hi) { DoubletIsNonprimitive(hi); }
    }
  }

  // ------------------------------------------------------------ Möbius inversion

  /** Σ of the ids in [lo, hi] whose primitive period is `div` digits long. */
  function ExactPeriodSum(lo: nat, hi: int, div: nat): nat
    decreases hi - lo
  {
    if hi < lo then 0 else ExactPeriodSum(lo, hi - 1, div) + (if Period(Show(hi)) == div then hi else 0)
  }

  /** Σ of the ids in [lo, hi] that are (len / d) copies of a `d`-digit block. */
  function RepetitionSum(lo: nat, hi: int, len: nat, d: nat): nat
    requires d >= 1
  {
    BlockSum(lo, hi, d, len / d)
  }

  /** `x` is (len / d) copies of a `d`-digit block. */
  predicate Repeats(x: nat, len: nat, d: nat)
    requires d >= 1
  {
    Block(x, d, len / d)
  }

  /** μ(div / d): the weight of block length `d` when inverting for `div`. */
  function Weight(div: nat, d: nat): int
    requires d >= 1
  {
    Mu(div / d)
  }

  /** Σ over the block lengths `d` in `ds` of μ(div / d) times the sum of
      the (len / d)-fold repetitions in [lo, hi]: the accumulator of `a[div]`. */
  function MobiusTerm(lo: nat, hi: int, ds: seq<nat>, div: nat, len: nat): int
    requires forall i :: 0 <= i < |ds| ==> ds[i] >= 1
  {
    if ds == [] then 0
    else
      var d := ds[|ds| - 1];
      MobiusTerm(lo, hi, ds[..|ds| - 1], div, len) + Weight(div, d) * RepetitionSum(lo, hi, len, d)
  }

  /** The weight one id receives: Σ of μ(div / d) over the `d` in `ds` of
      which it is a repetition. */
  function MobiusWeight(x: nat, ds: seq<nat>, div: nat, len: nat): int
    requires forall i :: 0 <= i < |ds| ==> ds[i] >= 1
  {
    if ds == [] then 0
    else
      var d := ds[|ds| - 1];
      MobiusWeight(x, ds[..|ds| - 1], div, len) + (if Repeats(x, len, d) then Weight(div, d) else 0)
  }

  lemma StepArithmetic(w: int, r: int, x: int, i: int, b: bool)
    ensures w * (r + (if b then x else 0)) - w * r == x * (i + (if b then w else 0)) - x * i
  {
    if b {
      assert w * (r + x) == w * r + w * x;
      assert x * (i + w) == x * i + x * w;
    }
  }

  /** Adding the id `hi` to the range adds `hi` times its weight. */
  lemma {:induction false} MobiusTermStep(lo: nat, hi: int, ds: seq<nat>, div: nat, len: nat)
    requires forall i :: 0 <= i < |ds| ==> ds[i] >= 1
    requires lo <= hi
    ensures MobiusTerm(lo, hi, ds, div, len) == MobiusTerm(lo, hi - 1, ds, div, len) + hi * MobiusWeight(hi, ds, div, len)
    decreases |ds|
  {
    if ds != [] {
      var d := ds[|ds| - 1];
      var init := ds[..|ds| - 1];
      MobiusTermStep(lo, hi, init, div, len);
      var r := RepetitionSum(lo, hi - 1, len, d);
      assert RepetitionSum(lo, hi, len, d) == r + (if Repeats(hi, len, d) then hi else 0);
      StepArithmetic(Weight(div, d), r, hi, MobiusWeight(hi, init, div, len), Repeats(hi, len, d));
    }
  }

  lemma {:induction false} MobiusTermEmpty(lo: nat, hi: int, ds: seq<nat>, div: nat, len: nat)
    requires forall i :: 0 <= i < |ds| ==> ds[i] >= 1
    requires hi < lo
    ensures MobiusTerm(lo, hi, ds, div, len) == 0
    decreases |ds|
  {
    if ds != [] {
      MobiusTermEmpty(lo, hi, ds[..|ds| - 1], div, len);
    }
  }

  /** For an id of `len` digits and a block length `d` dividing `len`, being
      a repetition of a `d`-digit block is being a multiple of the primitive
      period. */
  lemma BlockIffPeriodDivides(x: nat, d: nat, len: nat)
    requires x >= 1 && NumDigits(x) == len && d >= 1 && len % d == 0
    ensures Repeats(x, len, d) <==> d % Period(Show(x)) == 0
  {
    NumDigitsIsLength(x);
    var k := len / d;
    ExactQuotient(len, d);
    if k == 0 {
      assert false;
    }
    MulAtLeast(k, d);
    assert len == d * k;
    BlockIffRepetition(x, d, k);
    RepetitionIffPeriodic(x, d);
    PeriodDivides(Show(x), d);
  }

  /** The weight over the divisors up to `m` of `div` is the Möbius
      coefficient of the id's primitive period `pp`. */
  lemma {:induction false} MobiusWeightCoefficient(x: nat, div: nat, m: nat, len: nat, pp: nat)
    requires 1 <= div && len % div == 0 && pp >= 1
    requires forall d {:trigger Repeats(x, len, d)} :: 1 <= d && len % d == 0 ==> (Repeats(x, len, d) <==> d % pp == 0)
    ensures MobiusWeight(x, DivisorsUpTo(div, m), div, len) == MobiusCoefficient(div, m, pp)
  {
    if m > 0 {
      MobiusWeightCoefficient(x, div, m - 1, len, pp);
      if div % m == 0 {
        DividesTrans(m, div, len);
        assert Repeats(x, len, m) <==> m % pp == 0;
        MobiusWeightCoefficientHit(x, div, m, len, pp);
      } else {
        MobiusWeightCoefficientMiss(x, div, m, len, pp);
      }
    }
  }

  /** The step of `MobiusWeightCoefficient` at a divisor `m` of `div`. */
  lemma MobiusWeightCoefficientHit(x: nat, div: nat, m: nat, len: nat, pp: nat)
    requires 1 <= m && 1 <= div && pp >= 1 && div % m == 0
    requires Repeats(x, len, m) <==> m % pp == 0
    requires MobiusWeight(x, DivisorsUpTo(div, m - 1), div, len) == MobiusCoefficient(div, m - 1, pp)
    ensures MobiusWeight(x, DivisorsUpTo(div, m), div, len) == MobiusCoefficient(div, m, pp)
  {
    var prev := DivisorsUpTo(div, m - 1);
    assert DivisorsUpTo(div, m) == prev + [m];
    MobiusCoefficientStep(div, m, pp);
    MobiusWeightAppend(x, prev, m, div, len);
  }

  /** The step of `MobiusWeightCoefficient` at an `m` that does not divide `div`. */
  lemma MobiusWeightCoefficientMiss(x: nat, div: nat, m: nat, len: nat, pp: nat)
    requires 1 <= m && 1 <= div && pp >= 1 && div % m != 0
    requires MobiusWeight(x, DivisorsUpTo(div, m - 1), div, len) == MobiusCoefficient(div, m - 1, pp)
    ensures MobiusWeight(x, DivisorsUpTo(div, m), div, len) == MobiusCoefficient(div, m, pp)
  {
    assert DivisorsUpTo(div, m) == DivisorsUpTo(div, m - 1);
    MobiusCoefficientStep(div, m, pp);
  }

  lemma MobiusTermAppend(lo: nat, hi: int, ds: seq<nat>, d: nat, div: nat, len: nat)
    requires forall i :: 0 <= i < |ds| ==> ds[i] >= 1
    requires d >= 1
    ensures MobiusTerm(lo, hi, ds + [d], div, len) == MobiusTerm(lo, hi, ds, div, len) + Weight(div, d) * RepetitionSum(lo, hi, len, d)
  {
    assert (ds + [d])[..|ds|] == ds;
  }

  lemma MobiusTermPrefix(lo: nat, hi: int, ds: seq<nat>, j: nat, div: nat, len: nat)
    requires forall i :: 0 <= i < |ds| ==> ds[i] >= 1
    requires j < |ds|
    ensures MobiusTerm(lo, hi, ds[..j + 1], div, len) == MobiusTerm(lo, hi, ds[..j], div, len) + Weight(div, ds[j]) * RepetitionSum(lo, hi, len, ds[j])
  {
    assert ds[..j + 1] == ds[..j] + [ds[j]];
    MobiusTermAppend(lo, hi, ds[..j], ds[j], div, len);
  }

  lemma MobiusWeightAppend(x: nat, ds: seq<nat>, d: nat, div: nat, len: nat)
    requires forall i :: 0 <= i < |ds| ==> ds[i] >= 1
    requires d >= 1
    ensures MobiusWeight(x, ds + [d], div, len) == MobiusWeight(x, ds, div, len) + (if Repeats(x, len, d) then Weight(div, d) else 0)
  {
    assert (ds + [d])[..|ds|] == ds;
  }

  lemma MobiusCoefficientStep(n: nat, m: nat, p: nat)
    requires m >= 1 && p >= 1
    ensures MobiusCoefficient(n, m, p) == MobiusCoefficient(n, m - 1, p) + (if n % m == 0 && m % p == 0 then Weight(n, m) else 0)
  {
  }

  /** No divisor of `n` is a multiple of a `p` that does not divide `n`. */
  lemma {:induction false} MobiusCoefficientNone(n: nat, m: nat, p: nat)
    requires p >= 1 && n % p != 0
    ensures MobiusCoefficient(n, m, p) == 0
  {
    if m > 0 {
      MobiusCoefficientNone(n, m - 1, p);
      if n % m == 0 && m % p == 0 { DividesTrans(p, m, n); }
    }
  }

  /** Möbius inversion for one id: over the divisors of `div`, only an id
      whose primitive period is exactly `div` survives. */
  lemma MobiusWeightExact(x: nat, div: nat, len: nat)
    requires x >= 1 && 1 <= div <= 10 && len % div == 0 && NumDigits(x) == len
    ensures MobiusWeight(x, Divisors(div), div, len) == if Period(Show(x)) == div then 1 else 0
  {
    var pp := Period(Show(x));
    forall d | 1 <= d && len % d == 0
      ensures Repeats(x, len, d) <==> d % pp == 0
    {
      BlockIffPeriodDivides(x, d, len);
    }
    MobiusWeightCoefficient(x, div, div, len, pp);
    if div % pp == 0 {
      MobiusSumSmall(div, pp);
    } else {
      MobiusCoefficientNone(div, div, pp);
    }
  }

  /** `a[div]` is the sum of the ids of the band whose primitive period is
      `div`; in particular it is never negative. */
  lemma {:induction false} MobiusTermExact(lo: nat, hi: int, div: nat, len: nat)
    requires 1 <= div <= 10 && len % div == 0 && len >= 1
    requires Pow10(len - 1) <= lo && hi < Pow10(len)
    ensures MobiusTerm(lo, hi, Divisors(div), div, len) == ExactPeriodSum(lo, hi, div)
    decreases hi - lo
  {
    if hi < lo {
      MobiusTermEmpty(lo, hi, Divisors(div), div, len);
    } else {
      MobiusTermExact(lo, hi - 1, div, len);
      MobiusTermStep(lo, hi, Divisors(div), div, len);
      NumDigitsOf(hi, len);
      MobiusWeightExact(hi, div, len);
    }
  }

  /** Σ over the lengths in `ds` of the ids of [lo, hi] with that primitive period. */
  function ExactPeriodSums(lo: nat, hi: int, ds: seq<nat>): nat
  {
    if ds == [] then 0 else ExactPeriodSums(lo, hi, ds[..|ds| - 1]) + ExactPeriodSum(lo, hi, ds[|ds| - 1])
  }

  lemma ExactPeriodSumsAppend(lo: nat, hi: int, ds: seq<nat>, d: nat)
    ensures ExactPeriodSums(lo, hi, ds + [d]) == ExactPeriodSums(lo, hi, ds) + ExactPeriodSum(lo, hi, d)
  {
    assert (ds + [d])[..|ds|] == ds;
  }

  lemma {:induction false} ExactPeriodSumsStep(lo: nat, hi: int, ds: seq<nat>)
    requires lo <= hi
    requires forall i, j :: 0 <= i < j < |ds| ==> ds[i] < ds[j]
    ensures ExactPeriodSums(lo, hi, ds) == ExactPeriodSums(lo, hi - 1, ds) + (if Period(Show(hi)) in ds then hi else 0)
  {
    if ds != [] {
      var d := ds[|ds| - 1];
      var init := ds[..|ds| - 1];
      ExactPeriodSumsStep(lo, hi, init);
      assert forall e :: e in ds <==> e in init || e == d;
      assert d !in init by {
        forall k | 0 <= k < |init|
          ensures init[k] != d
        {
          assert ds[k] < ds[|ds| - 1];
        }
      }
    }
  }

  lemma {:induction false} ExactPeriodSumsEmpty(lo: nat, hi: int, ds: seq<nat>)
    requires hi < lo
    ensures ExactPeriodSums(lo, hi, ds) == 0
  {
    if ds != [] { ExactPeriodSumsEmpty(lo, hi, ds[..|ds| - 1]); }
  }

  /** A divisor below `len` is at most half of it. */
  lemma ProperDivisorHalf(len: nat, p: nat)
    requires 1 <= p < len && len % p == 0
    ensures p * 2 <= len && len / p >= 2
  {
    var q := len / p;
    ExactQuotient(len, p);
    if q <= 1 {
      assert false;
    }
    MulAtLeast(q - 1, p);
    assert len == (q - 1) * p + p;
  }

  /** Within one digit length, the ids whose primitive period is a proper
      divisor of the length are exactly the non-primitive ones. */
  lemma {:induction false} BandExact(lo: nat, hi: int, len: nat)
    requires len >= 1 && Pow10(len - 1) <= lo && hi < Pow10(len)
    ensures ExactPeriodSums(lo, hi, ProperDivisors(len)) == NonprimitiveSum(lo, hi)
    decreases hi - lo
  {
    if hi < lo {
      ExactPeriodSumsEmpty(lo, hi, ProperDivisors(len));
    } else {
      BandExact(lo, hi - 1, len);
      ExactPeriodSumsStep(lo, hi, ProperDivisors(len));
      NumDigitsOf(hi, len);
      NumDigitsIsLength(hi);
      NonprimitiveIffPeriod(hi);
      var pp := Period(Show(hi));
      if pp < len {
        ProperDivisorHalf(len, pp);
      }
    }
  }

  // ------------------------------------------------------------ lengths

  /** The non-primitive ids of [lo, hi] that have exactly `len` digits,
      through the band `[max(10^(len-1), lo), min(10^len - 1, hi)]`. */
  function Band(lo: nat, hi: int, len: nat): nat
    requires len >= 1
  {
    NonprimitiveSum(Max(Pow10(len - 1), lo), Min(Pow10(len) - 1, hi))
  }

  /** Σ of the bands for the lengths in [a, b). */
  function Bands(lo: nat, hi: int, a: nat, b: nat): nat
    requires a >= 1
    decreases b - a
  {
    if b <= a then 0 else Bands(lo, hi, a, b - 1) + Band(lo, hi, b - 1)
  }

  lemma BandStep(lo: nat, hi: int, len: nat)
    requires len >= 1 && lo <= hi
    ensures Band(lo, hi, len) == Band(lo, hi - 1, len) + (if NumDigits(hi) == len && IsNonprimitive(hi) then hi else 0)
  {
    var l := Max(Pow10(len - 1), lo);
    if hi < Pow10(len) {
      assert Min(Pow10(len) - 1, hi) == hi && Min(Pow10(len) - 1, hi - 1) == hi - 1;
      if hi >= l {
        NumDigitsOf(hi, len);
      }
    } else if NumDigits(hi) <= len {
      Pow10Monotone(NumDigits(hi), len);
    }
  }

  lemma {:induction false} BandsStep(lo: nat, hi: int, a: nat, b: nat)
    requires a >= 1 && lo <= hi
    ensures Bands(lo, hi, a, b) == Bands(lo, hi - 1, a, b) + (if a <= NumDigits(hi) < b && IsNonprimitive(hi) then hi else 0)
    decreases b - a
  {
    if b > a {
      BandsStep(lo, hi, a, b - 1);
      BandStep(lo, hi, b - 1);
    }
  }

  lemma {:induction false} BandsEmpty(lo: nat, hi: int, a: nat, b: nat)
    requires a >= 1 && hi < lo
    ensures Bands(lo, hi, a, b) == 0
    decreases b - a
  {
    if b > a { BandsEmpty(lo, hi, a, b - 1); }
  }

  /** Summing band by band covers every non-primitive id once, when the
      lengths from digits(lo) to digits(hi) are all included. */
  lemma {:induction false} NonprimitiveSumByLength(lo: nat, hi: int, a: nat, b: nat)
    requires 1 <= a <= NumDigits(lo)
    requires hi >= 0 ==> NumDigits(hi) < b
    ensures NonprimitiveSum(lo, hi) == Bands(lo, hi, a, b)
    decreases hi - lo
  {
    if hi < lo {
      BandsEmpty(lo, hi, a, b);
    } else {
      if hi - 1 >= 0 { NumDigitsMonotone(hi - 1, hi); }
      NonprimitiveSumByLength(lo, hi - 1, a, b);
      BandsStep(lo, hi, a, b);
      NumDigitsMonotone(lo, hi);
    }
  }

  /** The largest `u64`, the type of the range bounds. */
  const U64Max: nat := 0xFFFF_FFFF_FFFF_FFFF

  /** A `u64` has at most 20 decimal digits. */
  lemma U64Digits(n: nat)
    requires n <= U64Max
    ensures NumDigits(n) <= 20
  {
    if NumDigits(n) > 20 {
      Pow10Monotone(20, NumDigits(n) - 1);
      assert Pow10(5) == 100000;
      Pow10Add(5, 5);
      assert false;
    }
  }

  // ------------------------------------------------------------ part 2

  /** The `b` array of one band: for every proper divisor `div` of `len`,
      the sum of the (len / div)-fold repetitions of `div`-digit seeds. */
  method FillBlockSums(low: nat, high: nat, len: nat) returns (b: array<nat>)
    requires 1 <= len <= 20
    ensures fresh(b) && b.Length == 21
    ensures forall d :: d in ProperDivisors(len) ==> b[d] == RepetitionSum(low, high, len, d)
  {
    var divs := ProperDivisors(len);
    b := new nat[21](_ => 0);
    var i := 0;
    while i < |divs|
      invariant 0 <= i <= |divs|
      invariant forall j :: 0 <= j < i ==> 1 <= divs[j] <= 10 && b[divs[j]] == RepetitionSum(low, high, len, divs[j])
    {
      var div := divs[i];
      assert div in divs;
      b[div] := RepetitionTerm(low, high, len, div);
      i := i + 1;
    }
    BlockSumsByIndex(b, divs, low, high, len);
  }

  lemma BlockSumsByIndex(b: array<nat>, divs: seq<nat>, low: nat, high: nat, len: nat)
    requires b.Length == 21
    requires forall j :: 0 <= j < |divs| ==> 1 <= divs[j] <= 10 && b[divs[j]] == RepetitionSum(low, high, len, divs[j])
    ensures forall d :: d in divs ==> b[d] == RepetitionSum(low, high, len, d)
  {
    forall d | d in divs
      ensures b[d] == RepetitionSum(low, high, len, d)
    {
      var j :| 0 <= j < |divs| && divs[j] == d;
    }
  }

  /** One entry of `b`: the closed form for `d`-digit seeds repeated len / d times. */
  function RepetitionTerm(lo: nat, hi: nat, len: nat, d: nat): (t: nat)
    requires 1 <= d <= len
    ensures t == RepetitionSum(lo, hi, len, d)
  {
    QuotientAtLeastOne(len, d);
    LengthTerm(lo, hi, d, len / d)
  }

  lemma QuotientAtLeastOne(n: nat, d: nat)
    requires 1 <= d <= n
    ensures n / d >= 1
  {
  }

  /** `a[div]`: Σ over the divisors `d` of `div` of μ(div / d) · b[d], which
      is the sum of the band's ids whose primitive period is `div`. */
  method InvertBlockSums(b: array<nat>, low: nat, high: nat, len: nat, div: nat) returns (acc: int)
    requires b.Length == 21 && 1 <= len <= 20
    requires Pow10(len - 1) <= low && high < Pow10(len)
    requires div in ProperDivisors(len)
    requires forall d :: d in ProperDivisors(len) ==> b[d] == RepetitionSum(low, high, len, d)
    ensures acc == ExactPeriodSum(low, high, div)
  {
    var ds := Divisors(div);
    acc := 0;
    var j := 0;
    while j < |ds|
      invariant 0 <= j <= |ds|
      invariant acc == MobiusTerm(low, high, ds[..j], div, len)
    {
      var d := ds[j];
      assert d in ds;
      DivisorOfProperDivisor(d, div, len);
      var mu := Mobius(div / d);
      MobiusTermPrefix(low, high, ds, j, div, len);
      var term := mu * b[d];
      assert term == Weight(div, d) * RepetitionSum(low, high, len, d);
      acc := acc + term;
      j := j + 1;
    }
    assert ds[..j] == ds;
    MobiusTermExact(low, high, div, len);
  }

  /** A divisor of a proper divisor of `len` is itself a proper divisor of `len`. */
  lemma DivisorOfProperDivisor(d: nat, div: nat, len: nat)
    requires div in ProperDivisors(len) && d in Divisors(div)
    ensures d in ProperDivisors(len) && div / d >= 1
  {
    DividesTrans(d, div, len);
    ExactQuotient(div, d);
  }

  /** The `a` array of one band: for every proper divisor `div` of `len`,
      the sum of the band's ids whose primitive period is `div` digits. */
  method FillExactSums(b: array<nat>, low: nat, high: nat, len: nat) returns (a: array<nat>)
    requires b.Length == 21 && 1 <= len <= 20
    requires Pow10(len - 1) <= low && high < Pow10(len)
    requires forall d :: d in ProperDivisors(len) ==> b[d] == RepetitionSum(low, high, len, d)
    ensures fresh(a) && a.Length == 21
    ensures forall d :: d in ProperDivisors(len) ==> a[d] == ExactPeriodSum(low, high, d)
  {
    var divs := ProperDivisors(len);
    a := new nat[21](_ => 0);
    var i := 0;
    while i < |divs|
      invariant 0 <= i <= |divs|
      invariant forall j :: 0 <= j < i ==> 1 <= divs[j] <= 10 && a[divs[j]] == ExactPeriodSum(low, high, divs[j])
    {
      var div := divs[i];
      assert div in divs;
      var acc := InvertBlockSums(b, low, high, len, div);
      a[div] := acc;
      i := i + 1;
    }
    ExactSumsByIndex(a, divs, low, high);
  }

  lemma ExactSumsByIndex(a: array<nat>, divs: seq<nat>, low: nat, high: nat)
    requires a.Length == 21
    requires forall j :: 0 <= j < |divs| ==> 1 <= divs[j] <= 10 && a[divs[j]] == ExactPeriodSum(low, high, divs[j])
    ensures forall d :: d in divs ==> a[d] == ExactPeriodSum(low, high, d)
  {
    forall d | d in divs
      ensures a[d] == ExactPeriodSum(low, high, d)
    {
      var j :| 0 <= j < |divs| && divs[j] == d;
    }
  }

  /** The sum of the non-primitive ids of one band of `len`-digit ids. */
  method SumBand(low: nat, high: nat, len: nat) returns (total: nat)
    requires 1 <= len <= 20 && Pow10(len - 1) <= low && high < Pow10(len)
    ensures total == NonprimitiveSum(low, high)
  {
    var divs := ProperDivisors(len);
    if divs == [] {
      BandExact(low, high, len);
      return 0;
    }
    var b := FillBlockSums(low, high, len);
    var a := FillExactSums(b, low, high, len);
    total := 0;
    var i := 0;
    while i < |divs|
      invariant 0 <= i <= |divs|
      invariant total == ExactPeriodSums(low, high, divs[..i])
      modifies {}
    {
      var div := divs[i];
      assert div in divs;
      ExactPeriodSumsAppend(low, high, divs[..i], div);
      total := total + a[div];
      assert divs[..i + 1] == divs[..i] + [div];
      i := i + 1;
    }
    assert divs[..i] == divs;
    BandExact(low, high, len);
  }

  /** The contribution of the `len`-digit ids of [start, end]. */
  method BandTotal(start: nat, end: nat, len: nat) returns (t: nat)
    requires 1 <= len <= 20
    ensures t == Band(start, end, len)
  {
    var low := Max(Pow10(len - 1), start);
    var high := Min(Pow10(len) - 1, end);
    assert Band(start, end, len) == NonprimitiveSum(low, high);
    t := 0;
    if low <= high {
      assert Pow10(len - 1) <= low && high < Pow10(len);
      t := SumBand(low, high, len);
    } 
  }

  /** `sum_nonprimitives_in_range`: the sum of the non-primitive ids in
      [start, end], band by digit length. */
  method SumNonprimitivesInRange(start: nat, end: nat) returns (sum: nat)
    requires end <= U64Max
    ensures sum == NonprimitiveSum(start, end)
  {
    if end < 11 {
      NonprimitiveSumBelow11(start, end);
      return 0;
    }
    var first := NumDigits(start);
    var last := NumDigits(end);
    U64Digits(end);
    sum := SumBands(start, end, first, last);
    NonprimitiveSumByLength(start, end, first, Max(first, last + 1));
  }

  /** The loop over the digit lengths first..=last. */
  method SumBands(start: nat, end: nat, first: nat, last: nat) returns (sum: nat)
    requires 1 <= first && last <= 20
    ensures sum == Bands(start, end, first, Max(first, last + 1))
  {
    sum := 0;
    var len := first;
    while len <= last
      invariant first <= len <= Max(first, last + 1)
      invariant sum == Bands(start, end, first, len)
    {
      var t := BandTotal(start, end, len);
      sum := sum + t;
      len := len + 1;
    }
  }

  // ------------------------------------------------------------ the puzzle

  /** `parse::<u64>()`: an unsigned decimal that fits in 64 bits. */
  function ParseU64(s: string): (r: Option<nat>)
    ensures r.Some? ==> r.value <= U64Max
    ensures r.Some? <==> ParseUnsigned(s).Some? && ParseUnsigned(s).value <= U64Max
  {
    match ParseUnsigned(s)
    case Some(n) => if n <= U64Max then Some(n) else None
    case None => None
  }

  /** One `start-end` item of the input: the text before the first `-` and the text up to the
      next one are the bounds, anything after a second `-` is ignored, and a missing `-` or a
      bound that does not parse is the source's panic, here `None`. */
  function ParseRange(item: string): Option<IdRange>
  {
    var parts := Split(Trim(item), '-');
    if |parts| < 2 then None
    else match (ParseU64(parts[0]), ParseU64(parts[1]))
      case (Some(a), Some(b)) => Some(IdRange(a, b))
      case _ => None
  }

  /** `Day::create`: the trimmed input split at commas, each item a range; `None` where the
      source panics on an item. */
  function Create(input: string): Option<seq<IdRange>>
  {
    AllSome(Split(Trim(input), ','), ParseRange)
  }

  /** A range written the way the input writes it. */
  function ShowRange(r: IdRange): (s: string)
    ensures s != [] && IsDigit(s[0]) && IsDigit(s[|s| - 1]) && ',' !in s
  {
    var s := Show(r.start) + "-" + Show(r.end);
    assert s[0] == Show(r.start)[0] && s[|s| - 1] == Show(r.end)[|Show(r.end)| - 1];
    assert forall k :: 0 <= k < |s| ==> s[k] != ',' by {
      forall k | 0 <= k < |s| ensures s[k] != ',' {
        if k < |Show(r.start)| { assert s[k] == Show(r.start)[k]; }
        else if k > |Show(r.start)| { assert s[k] == Show(r.end)[k - |Show(r.start)| - 1]; }
      }
    }
    s
  }

  /** Ranges written as the input lists them, separated by commas. */
  function ShowRanges(rs: seq<IdRange>): (s: string)
    requires rs != []
    ensures s != [] && IsDigit(s[0]) && IsDigit(s[|s| - 1])
  {
    if |rs| == 1 then ShowRange(rs[0])
    else
      var head, tail := ShowRange(rs[0]), ShowRanges(rs[1..]);
      var s := head + "," + tail;
      assert s[0] == head[0] && s[|s| - 1] == tail[|tail| - 1];
      s
  }

  lemma DigitNotWhitespace(c: char)
    requires IsDigit(c)
    ensures !IsWhitespace(c)
  {
  }

  /** Splitting the written list at commas gives back the written ranges, one per item. */
  lemma {:induction false} SplitShowRanges(rs: seq<IdRange>)
    requires rs != []
    ensures |Split(ShowRanges(rs), ',')| == |rs|
    ensures forall i :: 0 <= i < |rs| ==> Split(ShowRanges(rs), ',')[i] == ShowRange(rs[i])
  {
    if |rs| > 1 {
      SplitShowRanges(rs[1..]);
      SplitJoin(ShowRange(rs[0]), ',', ShowRanges(rs[1..]));
      assert ShowRanges(rs) == ShowRange(rs[0]) + [','] + ShowRanges(rs[1..]);
      var parts := Split(ShowRanges(rs), ',');
      assert parts == [ShowRange(rs[0])] + Split(ShowRanges(rs[1..]), ',');
      forall i | 1 <= i < |rs| ensures parts[i] == ShowRange(rs[i]) {
        assert rs[1..][i - 1] == rs[i];
      }
    }
  }

  /** Reading a written range gives it back, as long as both bounds fit in 64 bits. */
  lemma ParseShowRange(r: IdRange)
    requires r.start <= U64Max && r.end <= U64Max
    ensures ParseRange(ShowRange(r)) == Some(r)
  {
    var a, b := Show(r.start), Show(r.end);
    var s := ShowRange(r);
    DigitNotWhitespace(s[0]);
    DigitNotWhitespace(s[|s| - 1]);
    TrimNoEdges(s);
    assert '-' !in a by {
      forall k | 0 <= k < |a| ensures a[k] != '-' { assert IsDigit(a[k]); }
    }
    assert '-' !in b by {
      forall k | 0 <= k < |b| ensures b[k] != '-' { assert IsDigit(b[k]); }
    }
    SplitJoin(a, '-', b);
    assert s == a + ['-'] + b;
    ParseShow(r.start);
    ParseShow(r.end);
  }

  /** `create` reads back any non-empty list of 64-bit ranges written in the input's format. */
  lemma CreateShowRanges(rs: seq<IdRange>)
    requires rs != []
    requires forall i :: 0 <= i < |rs| ==> rs[i].start <= U64Max && rs[i].end <= U64Max
    ensures Create(ShowRanges(rs)) == Some(rs)
  {
    var s := ShowRanges(rs);
    DigitNotWhitespace(s[0]);
    DigitNotWhitespace(s[|s| - 1]);
    TrimNoEdges(s);
    SplitShowRanges(rs);
    var parts := Split(s, ',');
    forall i | 0 <= i < |parts| ensures ParseRange(parts[i]) == Some(rs[i]) {
      ParseShowRange(rs[i]);
    }
    assert MapsTo(parts, ParseRange, rs);
    MapsToAllSome(parts, ParseRange, rs);
  }

  /** Part 1's total: the doublets of every range, summed range by range. */
  function TotalDoublets(ranges: seq<IdRange>): nat
  {
    if ranges == [] then 0
    else
      var r := ranges[|ranges| - 1];
      TotalDoublets(ranges[..|ranges| - 1]) + DoubletSum(r.start, r.end)
  }

  /** Part 2's total: the numbers made of a repeated block in every range, summed range by range. */
  function TotalNonprimitives(ranges: seq<IdRange>): nat
  {
    if ranges == [] then 0
    else
      var r := ranges[|ranges| - 1];
      TotalNonprimitives(ranges[..|ranges| - 1]) + NonprimitiveSum(r.start, r.end)
  }

  /** Every doublet repeats a block, so part 1 never exceeds part 2. */
  lemma {:induction false} TotalDoubletsAtMostNonprimitives(ranges: seq<IdRange>)
    ensures TotalDoublets(ranges) <= TotalNonprimitives(ranges)
  {
    if ranges != [] {
      var r := ranges[|ranges| - 1];
      TotalDoubletsAtMostNonprimitives(ranges[..|ranges| - 1]);
      DoubletSumAtMostNonprimitiveSum(r.start, r.end);
    }
  }

  /** `solve_part_1`: the sum over the ranges of their doublet sums, as a decimal string. */
  method SolvePart1(ranges: seq<IdRange>) returns (answer: string)
    ensures answer == Show(TotalDoublets(ranges))
  {
    var total := 0;
    for k := 0 to |ranges|
      invariant total == TotalDoublets(ranges[..k])
    {
      var sum := SumDoubletsInRange(ranges[k].start, ranges[k].end);
      assert ranges[..k + 1][..k] == ranges[..k];
      total := total + sum;
    }
    assert ranges[..|ranges|] == ranges;
    answer := Show(total);
  }

  /** `solve_part_2`: the sum over the ranges of their repeated-block sums, as a decimal string;
      the bounds are 64-bit, as `create` guarantees. */
  method SolvePart2(ranges: seq<IdRange>) returns (answer: string)
    requires forall i :: 0 <= i < |ranges| ==> ranges[i].end <= U64Max
    ensures answer == Show(TotalNonprimitives(ranges))
  {
    var total := 0;
    for k := 0 to |ranges|
      invariant total == TotalNonprimitives(ranges[..k])
    {
      var sum := SumNonprimitivesInRange(ranges[k].start, ranges[k].end);
      assert ranges[..k + 1][..k] == ranges[..k];
      total := total + sum;
    }
    assert ranges[..|ranges|] == ranges;
    answer := Show(total);
  }

  /** Whatever `create` returns has 64-bit bounds, so part 2 may run on it. */
  lemma CreateBounded(input: string)
    requires Create(input).Some?
    ensures forall i :: 0 <= i < |Create(input).value| ==>
      Create(input).value[i].start <= U64Max && Create(input).value[i].end <= U64Max
  {
    var items := Split(Trim(input), ',');
    var rs := Create(input).value;
    AllSomeEach(items, ParseRange);
    forall i | 0 <= i < |rs| ensures rs[i].start <= U64Max && rs[i].end <= U64Max {
      ParseRangeBounded(items[i]);
    }
  }

  /** A range that parses has 64-bit bounds. */
  lemma ParseRangeBounded(item: string)
    ensures ParseRange(item).Some? ==> ParseRange(item).value.start <= U64Max && ParseRange(item).value.end <= U64Max
  {
  }
}
