// A worksheet of numbers written in columns, with an operator row (`+` or
// `*` under each problem) as its last non-empty line. Part 1 reads each
// row's whitespace-separated numbers and reduces the j-th number of every
// row with the j-th operator; part 2 reads every character column as one
// number (its digits top to bottom) and reduces the columns of each
// digit-bearing column group with that group's operator. Both sum the
// per-problem results.
module Day06 {
  import opened Text

  /** `Op`. */
  datatype Op = Add | Mul

  /** `Op::from_char`: the source reaches `unreachable!()` for any other
      character, which it never passes. */
  function OpFromChar(c: char): Option<Op>
  {
    if c == '+' then Some(Add) else if c == '*' then Some(Mul) else None
  }

  function OpChar(op: Op): char
  {
    match op
    case Add => '+'
    case Mul => '*'
  }

  predicate IsOpChar(c: char) { c == '+' || c == '*' }

  /** `Op::apply`. */
  function Apply(op: Op, a: nat, b: nat): nat
  {
    match op
    case Add => a + b
    case Mul => a * b
  }

  lemma ApplyCommutative(op: Op, a: nat, b: nat)
    ensures Apply(op, a, b) == Apply(op, b, a)
  {
  }

  lemma ApplyAssociative(op: Op, a: nat, b: nat, c: nat)
    ensures Apply(op, Apply(op, a, b), c) == Apply(op, a, Apply(op, b, c))
  {
    if op == Mul {
      assert (a * b) * c == a * (b * c);
    }
  }

  // -------------------------------------------------------------- reducing

  /** `Iterator::reduce` (and `fold` seeded with the first element): combine
      the values left to right. */
  function Reduce(op: Op, xs: seq<nat>): nat
    requires |xs| > 0
  {
    if |xs| == 1 then xs[0] else Apply(op, Reduce(op, xs[..|xs| - 1]), xs[|xs| - 1])
  }

  function Sum(xs: seq<nat>): nat
  {
    if xs == [] then 0 else xs[0] + Sum(xs[1..])
  }

  function Product(xs: seq<nat>): nat
  {
    if xs == [] then 1 else xs[0] * Product(xs[1..])
  }

  function Reversed(xs: seq<nat>): (r: seq<nat>)
    ensures |r| == |xs|
  {
    if xs == [] then [] else [xs[|xs| - 1]] + Reversed(xs[..|xs| - 1])
  }

  /** Reducing a list with one more value in front applies the operator to
      that value and the reduction of the rest. */
  lemma {:induction false} ReduceCons(op: Op, a: nat, xs: seq<nat>)
    requires |xs| > 0
    ensures Reduce(op, [a] + xs) == Apply(op, a, Reduce(op, xs))
  {
    var ys := [a] + xs;
    if |xs| > 1 {
      assert ys[..|ys| - 1] == [a] + xs[..|xs| - 1];
      ReduceCons(op, a, xs[..|xs| - 1]);
      ApplyAssociative(op, a, Reduce(op, xs[..|xs| - 1]), xs[|xs| - 1]);
    } else {
      assert ys[..|ys| - 1] == [a];
    }
  }

  /** `+` reduces to the sum of the values. */
  lemma {:induction false} ReduceAddIsSum(xs: seq<nat>)
    requires |xs| > 0
    ensures Reduce(Add, xs) == Sum(xs)
  {
    if |xs| > 1 {
      ReduceCons(Add, xs[0], xs[1..]);
      assert [xs[0]] + xs[1..] == xs;
      ReduceAddIsSum(xs[1..]);
    }
  }

  /** `*` reduces to the product of the values. */
  lemma {:induction false} ReduceMulIsProduct(xs: seq<nat>)
    requires |xs| > 0
    ensures Reduce(Mul, xs) == Product(xs)
  {
    if |xs| > 1 {
      ReduceCons(Mul, xs[0], xs[1..]);
      assert [xs[0]] + xs[1..] == xs;
      ReduceMulIsProduct(xs[1..]);
    }
  }

  /** Both operators are commutative and associative, so reducing left to
      right (as the code does) and right to left (as its documentation
      describes part 2) give the same value. */
  lemma {:induction false} ReduceReversed(op: Op, xs: seq<nat>)
    requires |xs| > 0
    ensures Reduce(op, Reversed(xs)) == Reduce(op, xs)
  {
    if |xs| > 1 {
      var init, last := xs[..|xs| - 1], xs[|xs| - 1];
      ReduceReversed(op, init);
      ReduceCons(op, last, Reversed(init));
      ApplyCommutative(op, last, Reduce(op, init));
    }
  }

  // ---------------------------------------------------------------- puzzle

  /** The parsed worksheet: the data rows as characters, the same rows as
      whitespace-separated numbers, the digit-bearing column groups as
      half-open ranges, and the operators. */
  datatype Puzzle = Puzzle(grid: seq<string>, numGrid: seq<seq<nat>>, colRanges: seq<(nat, nat)>, ops: seq<Op>)

  /** Some data row long enough to reach column `col` has a decimal digit
      there. */
  predicate HasDigit(grid: seq<string>, col: nat)
  {
    exists r :: 0 <= r < |grid| && col < |grid[r]| && IsDigit(grid[r][col])
  }

  /** `(0..num_rows).any(|row| grid[row][col].is_ascii_digit())`, from row
      `from` on: the rows are tried in order and the scan stops at the first
      digit. A row too short to reach `col` panics (`None`), but only when
      it comes before every row with a digit there. */
  function AnyDigit(grid: seq<string>, col: nat, from: nat): Option<bool>
    requires from <= |grid|
    decreases |grid| - from
  {
    if from == |grid| then Some(false)
    else if |grid[from]| <= col then None
    else if IsDigit(grid[from][col]) then Some(true)
    else AnyDigit(grid, col, from + 1)
  }

  /** The scan answers whether some row from `from` on reaches `col` with a
      digit there, and it panics exactly when a row too short for `col`
      comes before every row with a digit there. */
  lemma {:induction false} AnyDigitMeaning(grid: seq<string>, col: nat, from: nat)
    requires from <= |grid|
    ensures AnyDigit(grid, col, from).Some? ==>
      (AnyDigit(grid, col, from).value <==> exists k :: from <= k < |grid| && col < |grid[k]| && IsDigit(grid[k][col]))
    ensures AnyDigit(grid, col, from).None? <==>
      exists k :: from <= k < |grid| && |grid[k]| <= col
        && forall j :: from <= j < k ==> col < |grid[j]| && !IsDigit(grid[j][col])
    decreases |grid| - from
  {
    if from < |grid| && col < |grid[from]| && !IsDigit(grid[from][col]) {
      AnyDigitMeaning(grid, col, from + 1);
    }
  }

  /** Columns `0` to `width - 1` can be scanned without a panic. */
  predicate ScannableTo(grid: seq<string>, width: nat)
  {
    forall c :: 0 <= c < width ==> AnyDigit(grid, c, 0).Some?
  }

  /** Every column of the first data row can be scanned without a panic. */
  predicate Scannable(grid: seq<string>)
  {
    |grid| > 0 && ScannableTo(grid, |grid[0]|)
  }

  /** `ranges` are the maximal runs of digit-bearing columns among the first
      `width` columns, in increasing order. */
  predicate MaximalRuns(grid: seq<string>, ranges: seq<(nat, nat)>, width: nat)
    requires |grid| > 0 && width <= |grid[0]|
  {
    && (forall i :: 0 <= i < |ranges| ==> ranges[i].0 < ranges[i].1 <= width)
    && (forall i, j :: 0 <= i < j < |ranges| ==> ranges[i].1 < ranges[j].0)
    && (forall i, c :: 0 <= i < |ranges| && ranges[i].0 <= c < ranges[i].1 ==> HasDigit(grid, c))
    && (forall i :: 0 <= i < |ranges| ==> ranges[i].0 == 0 || !HasDigit(grid, ranges[i].0 - 1))
    && (forall i :: 0 <= i < |ranges| ==> ranges[i].1 == |grid[0]| || !HasDigit(grid, ranges[i].1))
    && (forall c :: 0 <= c < width && HasDigit(grid, c) ==>
          exists i :: 0 <= i < |ranges| && ranges[i].0 <= c < ranges[i].1)
  }

  /** What the column scan knows after the columns before `col`: the runs
      closed so far are the maximal runs before the open one (or before
      `col` when none is open), and an open run starting at `s` covers
      digit-bearing columns only and follows a column without digits. */
  predicate ScanState(grid: seq<string>, ranges: seq<(nat, nat)>, start: Option<nat>, col: nat)
    requires |grid| > 0
  {
    && col <= |grid[0]|
    && match start
       case None =>
         && MaximalRuns(grid, ranges, col)
         && (forall i :: 0 <= i < |ranges| ==> ranges[i].1 < col)
         && (col == 0 || !HasDigit(grid, col - 1))
       case Some(s) =>
         && s < col
         && MaximalRuns(grid, ranges, s)
         && (forall i :: 0 <= i < |ranges| ==> ranges[i].1 < s)
         && (s == 0 || !HasDigit(grid, s - 1))
         && (forall c :: s <= c < col ==> HasDigit(grid, c))
  }

  /** A column without digits extends the scanned prefix without a new run. */
  lemma ExtendNonDigit(grid: seq<string>, ranges: seq<(nat, nat)>, w: nat)
    requires |grid| > 0 && w < |grid[0]|
    requires MaximalRuns(grid, ranges, w) && !HasDigit(grid, w)
    ensures MaximalRuns(grid, ranges, w + 1)
  {
  }

  /** Closing the open run `[s, e)` at a column without digits (or at the
      end of the row) keeps the runs maximal. */
  lemma CloseRun(grid: seq<string>, before: seq<(nat, nat)>, s: nat, e: nat)
    requires |grid| > 0 && s < e <= |grid[0]|
    requires MaximalRuns(grid, before, s)
    requires forall i :: 0 <= i < |before| ==> before[i].1 < s
    requires s == 0 || !HasDigit(grid, s - 1)
    requires forall c :: s <= c < e ==> HasDigit(grid, c)
    requires e == |grid[0]| || !HasDigit(grid, e)
    ensures MaximalRuns(grid, before + [(s, e)], e)
  {
    var ranges := before + [(s, e)];
    CloseRunOrder(before, s, e);
    CloseRunDigits(grid, before, s, e);
    CloseRunCover(grid, before, s, e);
  }

  /** The closed run comes after every earlier one. */
  lemma CloseRunOrder(before: seq<(nat, nat)>, s: nat, e: nat)
    requires forall i, j :: 0 <= i < j < |before| ==> before[i].1 < before[j].0
    requires forall i :: 0 <= i < |before| ==> before[i].1 < s
    ensures forall i, j :: 0 <= i < j < |before + [(s, e)]| ==> (before + [(s, e)])[i].1 < (before + [(s, e)])[j].0
  {
    var ranges := before + [(s, e)];
    forall i, j | 0 <= i < j < |ranges|
      ensures ranges[i].1 < ranges[j].0
    {
      assert ranges[i] == before[i];
      if j < |before| {
        assert ranges[j] == before[j];
      }
    }
  }

  /** Every column of every run, the closed one included, bears a digit. */
  lemma CloseRunDigits(grid: seq<string>, before: seq<(nat, nat)>, s: nat, e: nat)
    requires |grid| > 0 && s < e <= |grid[0]|
    requires forall i :: 0 <= i < |before| ==> before[i].0 < before[i].1 <= s
    requires forall i, c :: 0 <= i < |before| && before[i].0 <= c < before[i].1 ==> HasDigit(grid, c)
    requires forall c :: s <= c < e ==> HasDigit(grid, c)
    ensures forall i, c :: 0 <= i < |before + [(s, e)]| && (before + [(s, e)])[i].0 <= c < (before + [(s, e)])[i].1 ==>
      HasDigit(grid, c)
  {
    var ranges := before + [(s, e)];
    forall i, c | 0 <= i < |ranges| && ranges[i].0 <= c < ranges[i].1
      ensures HasDigit(grid, c)
    {
      if i < |before| {
        assert ranges[i] == before[i];
      }
    }
  }

  /** Every digit-bearing column before `e` lies in one of the runs. */
  lemma CloseRunCover(grid: seq<string>, before: seq<(nat, nat)>, s: nat, e: nat)
    requires |grid| > 0 && s < e <= |grid[0]|
    requires forall c :: 0 <= c < s && HasDigit(grid, c) ==>
      exists i :: 0 <= i < |before| && before[i].0 <= c < before[i].1
    ensures forall c :: 0 <= c < e && HasDigit(grid, c) ==>
      exists i :: 0 <= i < |before + [(s, e)]| && (before + [(s, e)])[i].0 <= c < (before + [(s, e)])[i].1
  {
    var ranges := before + [(s, e)];
    forall c | 0 <= c < e && HasDigit(grid, c)
      ensures exists i :: 0 <= i < |ranges| && ranges[i].0 <= c < ranges[i].1
    {
      if c >= s {
        assert ranges[|before|].0 <= c < ranges[|before|].1;
      } else {
        var i :| 0 <= i < |before| && before[i].0 <= c < before[i].1;
        assert ranges[i] == before[i];
      }
    }
  }

  /** One column of the scan in `create`: a digit-bearing column opens a
      run when none is open, a column without digits closes the open run. */
  method ScanColumn(grid: seq<string>, ranges: seq<(nat, nat)>, start: Option<nat>, col: nat, hasDigit: bool)
    returns (ranges': seq<(nat, nat)>, start': Option<nat>)
    requires |grid| > 0 && col < |grid[0]|
    requires hasDigit == HasDigit(grid, col)
    requires ScanState(grid, ranges, start, col)
    ensures ScanState(grid, ranges', start', col + 1)
    ensures start'.Some? <==> HasDigit(grid, col)
  {
    ranges', start' := ranges, start;
    match (start, hasDigit)
    case (None, true) =>
      start' := Some(col);
    case (Some(s), false) =>
      CloseRun(grid, ranges, s, col);
      ranges' := ranges + [(s, col)];
      ExtendNonDigit(grid, ranges', col);
      start' := None;
    case (None, false) =>
      ExtendNonDigit(grid, ranges, col);
    case (Some(s), true) =>
  }

  /** The column-group loop of `create`: scan the columns of the first row,
      opening a group at a digit-bearing column and closing it at the next
      column without digits (or at the end of the row). `None` where the
      source panics: no data row, or a column whose scan meets a short row. */
  method ColumnRanges(grid: seq<string>) returns (r: Option<seq<(nat, nat)>>)
    ensures r.None? <==> !Scannable(grid)
    ensures r.Some? ==> MaximalRuns(grid, r.value, |grid[0]|)
  {
    if |grid| == 0 {
      return None;
    }
    var width := |grid[0]|;
    var ranges: seq<(nat, nat)> := [];
    var start: Option<nat> := None;
    for col := 0 to width
      invariant ScanState(grid, ranges, start, col)
      invariant ScannableTo(grid, col)
    {
      var hit := AnyDigit(grid, col, 0);
      if hit.None? {
        return None;
      }
      AnyDigitMeaning(grid, col, 0);
      ranges, start := ScanColumn(grid, ranges, start, col, hit.value);
    }
    if start.Some? {
      CloseRun(grid, ranges, start.value, width);
      ranges := ranges + [(start.value, width)];
    }
    return Some(ranges);
  }

  // ---------------------------------------------------------------- part 1

  /** The `col`-th number of every row, top to bottom. */
  function NumberColumn(numGrid: seq<seq<nat>>, col: nat): (xs: seq<nat>)
    requires forall r :: 0 <= r < |numGrid| ==> col < |numGrid[r]|
    ensures |xs| == |numGrid| && forall r :: 0 <= r < |numGrid| ==> xs[r] == numGrid[r][col]
  {
    seq(|numGrid|, r requires 0 <= r < |numGrid| => numGrid[r][col])
  }

  /** Every row has a number for every operator; the source indexes
      `row[col]` and panics otherwise. */
  predicate RowsCoverOps(p: Puzzle)
  {
    |p.numGrid| > 0 && forall r :: 0 <= r < |p.numGrid| ==> |p.ops| <= |p.numGrid[r]|
  }

  /** The sum over the first `n` problems of part 1. */
  function Part1Sum(p: Puzzle, n: nat): nat
    requires RowsCoverOps(p) && n <= |p.ops|
  {
    if n == 0 then 0 else Part1Sum(p, n - 1) + Reduce(p.ops[n - 1], NumberColumn(p.numGrid, n - 1))
  }

  /** `solve_part_1`: fold the j-th number of every row with the j-th
      operator, starting from the first row's, and sum over the operators.
      The result is the sum, over the operators, of the sum or the product
      of that operator's column of numbers. */
  function SolvePart1(p: Puzzle): (total: nat)
    requires RowsCoverOps(p)
    ensures total == SumOfValues(p.ops, Columns(p, |p.ops|))
  {
    Part1IsSumOfProblems(p, |p.ops|);
    assert p.ops[..|p.ops|] == p.ops;
    Part1Sum(p, |p.ops|)
  }

  /** The first `n` problems of part 1: the j-th number of every row. */
  function Columns(p: Puzzle, n: nat): (cols: seq<seq<nat>>)
    requires RowsCoverOps(p) && n <= |p.ops|
    ensures |cols| == n
  {
    seq(n, j requires 0 <= j < n => NumberColumn(p.numGrid, j))
  }

  /** What a problem's value is: the sum of its numbers under `+`, their
      product under `*`. */
  function ProblemValue(op: Op, xs: seq<nat>): nat
  {
    match op
    case Add => Sum(xs)
    case Mul => Product(xs)
  }

  function SumOfValues(ops: seq<Op>, cols: seq<seq<nat>>): nat
    requires |ops| == |cols|
  {
    if ops == [] then 0 else SumOfValues(ops[..|ops| - 1], cols[..|cols| - 1]) + ProblemValue(ops[|ops| - 1], cols[|cols| - 1])
  }

  /** Part 1 is the sum, over the operators, of the sum or product of that
      operator's column of numbers. */
  lemma {:induction false} Part1IsSumOfProblems(p: Puzzle, n: nat)
    requires RowsCoverOps(p) && n <= |p.ops|
    ensures Part1Sum(p, n) == SumOfValues(p.ops[..n], Columns(p, n))
  {
    if n > 0 {
      Part1IsSumOfProblems(p, n - 1);
      assert p.ops[..n][..n - 1] == p.ops[..n - 1];
      assert Columns(p, n)[..n - 1] == Columns(p, n - 1);
      var xs := NumberColumn(p.numGrid, n - 1);
      if p.ops[n - 1] == Add { ReduceAddIsSum(xs); } else { ReduceMulIsProduct(xs); }
    }
  }

  // ---------------------------------------------------------------- part 2

  /** The digits of column `col`, top to bottom, other characters skipped. */
  function ColumnDigits(grid: seq<string>, col: nat): (ds: string)
    requires forall r :: 0 <= r < |grid| ==> col < |grid[r]|
    ensures AllDigits(ds)
  {
    if grid == [] then []
    else
      var c := grid[|grid| - 1][col];
      ColumnDigits(grid[..|grid| - 1], col) + (if IsDigit(c) then [c] else [])
  }

  /** `number_for_col`: fold the column's digits into a decimal number,
      skipping every character that is not a digit. The result is the
      number those digits denote. */
  function NumberForCol(grid: seq<string>, col: nat): (n: nat)
    requires forall r :: 0 <= r < |grid| ==> col < |grid[r]|
    ensures n == DigitsValue(ColumnDigits(grid, col))
  {
    if grid == [] then 0
    else
      var c := grid[|grid| - 1][col];
      var n := NumberForCol(grid[..|grid| - 1], col);
      if IsDigit(c) then
        var ds := ColumnDigits(grid[..|grid| - 1], col);
        assert (ds + [c])[..|ds + [c]| - 1] == ds;
        n * 10 + DigitValue(c)
      else
        assert ColumnDigits(grid[..|grid| - 1], col) + [] == ColumnDigits(grid[..|grid| - 1], col);
        n
  }

  /** Every data row reaches the columns before `width`. */
  predicate ColumnsIn(grid: seq<string>, width: nat)
  {
    forall r :: 0 <= r < |grid| ==> width <= |grid[r]|
  }

  /** Every column group paired with an operator is non-empty and lies
      inside every data row: `number_for_col` indexes `row[col]` in every
      row and panics otherwise, and `reduce(..).unwrap()` panics on an
      empty group. */
  predicate GroupsFit(p: Puzzle)
  {
    forall i :: 0 <= i < |p.colRanges| && i < |p.ops| ==>
      p.colRanges[i].0 < p.colRanges[i].1 && ColumnsIn(p.grid, p.colRanges[i].1)
  }

  /** The numbers read from columns `lo` to `hi - 1`, left to right. */
  function ColumnNumbers(grid: seq<string>, lo: nat, hi: nat): (xs: seq<nat>)
    requires lo <= hi && ColumnsIn(grid, hi)
    ensures |xs| == hi - lo
  {
    if lo == hi then [] else ColumnNumbers(grid, lo, hi - 1) + [NumberForCol(grid, hi - 1)]
  }

  /** The numbers read from the columns of one group, left to right. */
  function GroupNumbers(grid: seq<string>, range: (nat, nat)): (xs: seq<nat>)
    requires range.0 < range.1 && ColumnsIn(grid, range.1)
    ensures |xs| == range.1 - range.0 > 0
  {
    ColumnNumbers(grid, range.0, range.1)
  }

  /** The sum over the first `n` groups of part 2. */
  function Part2Sum(p: Puzzle, n: nat): nat
    requires GroupsFit(p) && n <= |p.colRanges| && n <= |p.ops|
  {
    if n == 0 then 0 else Part2Sum(p, n - 1) + Reduce(p.ops[n - 1], GroupNumbers(p.grid, p.colRanges[n - 1]))
  }

  function Min(a: nat, b: nat): nat { if a <= b then a else b }

  /** The first `n` problems of part 2: each group's column numbers read
      right to left, as the puzzle reads them. */
  function Groups(p: Puzzle, n: nat): (gs: seq<seq<nat>>)
    requires GroupsFit(p) && n <= |p.colRanges| && n <= |p.ops|
    ensures |gs| == n
  {
    seq(n, i requires 0 <= i < n => Reversed(GroupNumbers(p.grid, p.colRanges[i])))
  }

  /** `solve_part_2`: pair each column group with an operator (`zip` stops
      at the shorter list), reduce the group's column numbers with it, and
      sum. The result is the sum, over the paired groups, of the sum or the
      product of the group's numbers read right to left. */
  function SolvePart2(p: Puzzle): (total: nat)
    requires GroupsFit(p)
    ensures var n := Min(|p.colRanges|, |p.ops|); total == SumOfValues(p.ops[..n], Groups(p, n))
  {
    Part2IsSumOfProblems(p, Min(|p.colRanges|, |p.ops|));
    Part2Sum(p, Min(|p.colRanges|, |p.ops|))
  }

  /** Part 2 is the sum, over the paired groups, of the sum or the product
      of the group's numbers read right to left. */
  lemma {:induction false} Part2IsSumOfProblems(p: Puzzle, n: nat)
    requires GroupsFit(p) && n <= |p.colRanges| && n <= |p.ops|
    ensures Part2Sum(p, n) == SumOfValues(p.ops[..n], Groups(p, n))
  {
    if n > 0 {
      Part2IsSumOfProblems(p, n - 1);
      var gs := Groups(p, n);
      assert p.ops[..n][..n - 1] == p.ops[..n - 1];
      assert gs[..n - 1] == Groups(p, n - 1);
      var xs := GroupNumbers(p.grid, p.colRanges[n - 1]);
      assert gs[n - 1] == Reversed(xs);
      GroupValue(p.ops[n - 1], xs);
    }
  }

  /** Reducing a group equals the sum or product of its numbers read right
      to left. */
  lemma GroupValue(op: Op, xs: seq<nat>)
    requires |xs| > 0
    ensures Reduce(op, xs) == ProblemValue(op, Reversed(xs))
  {
    ReduceReversed(op, xs);
    if op == Add { ReduceAddIsSum(Reversed(xs)); } else { ReduceMulIsProduct(Reversed(xs)); }
  }

  /** Each group's value does not depend on the direction in which its
      columns are combined: right to left gives the same. */
  lemma GroupRightToLeft(p: Puzzle, i: nat)
    requires GroupsFit(p) && i < |p.colRanges| && i < |p.ops|
    ensures Reduce(p.ops[i], Reversed(GroupNumbers(p.grid, p.colRanges[i])))
      == Reduce(p.ops[i], GroupNumbers(p.grid, p.colRanges[i]))
  {
    ReduceReversed(p.ops[i], GroupNumbers(p.grid, p.colRanges[i]));
  }

  // ---------------------------------------------------------------- parsing

  /** The operators of a line: its `+` and `*` characters, in order. */
  function ParseOps(line: string): (ops: seq<Op>)
    ensures ShowOps(ops) == OpChars(line)
  {
    if line == [] then []
    else
      var rest := ParseOps(line[..|line| - 1]);
      var c := line[|line| - 1];
      if IsOpChar(c) then
        assert ShowOps(rest + [OpFromChar(c).value])[..|rest|] == ShowOps(rest);
        rest + [OpFromChar(c).value]
      else rest
  }

  /** The `+` and `*` characters of a line, in order. */
  function OpChars(line: string): (s: string)
    ensures forall k :: 0 <= k < |s| ==> IsOpChar(s[k])
  {
    if line == [] then []
    else OpChars(line[..|line| - 1]) + (if IsOpChar(line[|line| - 1]) then [line[|line| - 1]] else [])
  }

  function ShowOps(ops: seq<Op>): (s: string)
    ensures |s| == |ops|
  {
    if ops == [] then [] else ShowOps(ops[..|ops| - 1]) + [OpChar(ops[|ops| - 1])]
  }

  /** The whitespace-separated numbers of one line. */
  function ParseNumbers(tokens: seq<string>): (r: Option<seq<nat>>)
    ensures r.Some? ==> |r.value| == |tokens|
  {
    if tokens == [] then Some([])
    else match (ParseUnsigned(tokens[0]), ParseNumbers(tokens[1..]))
      case (Some(x), Some(xs)) => Some([x] + xs)
      case _ => None
  }

  function ParseNumberRows(lines: seq<string>): (r: Option<seq<seq<nat>>>)
    ensures r.Some? ==> |r.value| == |lines|
  {
    if lines == [] then Some([])
    else match (ParseNumbers(SplitWhitespace(lines[0])), ParseNumberRows(lines[1..]))
      case (Some(x), Some(xs)) => Some([x] + xs)
      case _ => None
  }

  /** `lines` without its trailing empty lines. */
  function DropTrailingEmpty(lines: seq<string>): (r: seq<string>)
    ensures |r| <= |lines| && r == lines[..|r|]
    ensures r == [] || r[|r| - 1] != []
    ensures forall k :: |r| <= k < |lines| ==> lines[k] == []
  {
    if lines == [] || lines[|lines| - 1] != [] then lines
    else DropTrailingEmpty(lines[..|lines| - 1])
  }

  /** The data lines and the operator line of the input: once the trailing
      empty lines are dropped, the last line is the operator line and the
      ones before it are data. `None` when no line is left. */
  function Sections(input: string): Option<(seq<string>, string)>
  {
    var ls := DropTrailingEmpty(Lines(input));
    if ls == [] then None else Some((ls[..|ls| - 1], ls[|ls| - 1]))
  }

  /** `Day::create`: drop the trailing empty lines, take the last line as
      the operator row and the others as data. `None` exactly where the
      source panics: no line left, a token that is not a number, no data
      row, or a column scan that meets a short row before any digit. */
  method Create(input: string) returns (r: Option<Puzzle>)
    ensures r.None? <==>
      Sections(input).None? || ParseNumberRows(Sections(input).value.0).None? || !Scannable(Sections(input).value.0)
    ensures r.Some? ==>
      && Sections(input).Some?
      && r.value.grid == Sections(input).value.0
      && ParseNumberRows(r.value.grid) == Some(r.value.numGrid)
      && r.value.ops == ParseOps(Sections(input).value.1)
      && ShowOps(r.value.ops) == OpChars(Sections(input).value.1)
    ensures r.Some? ==> Scannable(r.value.grid) && MaximalRuns(r.value.grid, r.value.colRanges, |r.value.grid[0]|)
  {
    var lines := Lines(input);
    while |lines| > 0 && lines[|lines| - 1] == []
      invariant DropTrailingEmpty(lines) == DropTrailingEmpty(Lines(input))
    {
      lines := lines[..|lines| - 1];
    }
    if lines == [] {
      return None;
    }
    var opsLine := lines[|lines| - 1];
    var dataLines := lines[..|lines| - 1];
    var ops := ParseOps(opsLine);
    var numGrid := ParseNumberRows(dataLines);
    if numGrid.None? {
      return None;
    }
    var colRanges := ColumnRanges(dataLines);
    if colRanges.None? {
      return None;
    }
    r := Some(Puzzle(dataLines, numGrid.value, colRanges.value, ops));
  }
}
