// A dial that starts at 50 and is turned left (negative) or right (positive)
// by each move: part 1 counts the moves after which it points at 0, part 2
// counts every time the dial passes a multiple of 100.
module Day01 {
  import opened Text

  /** One line `L<n>` or `R<n>`: the first character picks the sign and the
      rest is parsed as a signed integer. `None` where the source panics. */
  function ParseMove(line: string): Option<int>
  {
    if |line| == 0 then None
    else match ParseSigned(line[1..])
      case None => None
      case Some(d) =>
        if line[0] == 'L' then Some(-d)
        else if line[0] == 'R' then Some(d)
        else None
  }

  function ParseMoves(lines: seq<string>): (r: Option<seq<int>>)
    ensures r.Some? ==> |r.value| == |lines|
  {
    if lines == [] then Some([])
    else match (ParseMove(lines[0]), ParseMoves(lines[1..]))
      case (Some(m), Some(ms)) => Some([m] + ms)
      case _ => None
  }

  /** `Day::create`: one move per line. */
  function Create(input: string): Option<seq<int>>
  {
    ParseMoves(Lines(input))
  }

  /** The line that writes a move: `R` for a non-negative one, `L` otherwise. */
  function ShowMove(m: int): string
  {
    if m >= 0 then "R" + Show(m) else "L" + Show(-m)
  }

  function ShowMoves(moves: seq<int>): (ls: seq<string>)
    ensures |ls| == |moves|
    ensures forall k :: 0 <= k < |ls| ==> ls[k] == ShowMove(moves[k])
  {
    if moves == [] then [] else [ShowMove(moves[0])] + ShowMoves(moves[1..])
  }

  /** `Ln` parses to -n and `Rn` to +n. */
  lemma ParseMoveShow(n: nat)
    ensures ParseMove("L" + Show(n)) == Some(-(n as int))
    ensures ParseMove("R" + Show(n)) == Some(n)
  {
    ParseShow(n);
    assert ("L" + Show(n))[1..] == Show(n);
    assert ("R" + Show(n))[1..] == Show(n);
  }

  /** Parsing the printed moves gives the moves back. */
  lemma {:induction false} CreateShowMoves(moves: seq<int>)
    ensures Create(JoinLines(ShowMoves(moves))) == Some(moves)
  {
    var ls := ShowMoves(moves);
    forall k | 0 <= k < |ls|
      ensures '\n' !in ls[k] && StripCr(ls[k]) == ls[k]
    {
      ShowMovePlain(moves[k]);
    }
    LinesJoinLines(ls);
    ParseMovesShowMoves(moves);
  }

  /** A printed move is one line with no carriage return to strip. */
  lemma ShowMovePlain(m: int)
    ensures '\n' !in ShowMove(m) && StripCr(ShowMove(m)) == ShowMove(m)
  {
    var line := ShowMove(m);
    var digits := if m >= 0 then Show(m) else Show(-m);
    assert line == [line[0]] + digits;
    assert line[|line| - 1] == digits[|digits| - 1];
  }

  lemma {:induction false} ParseMovesShowMoves(moves: seq<int>)
    ensures ParseMoves(ShowMoves(moves)) == Some(moves)
  {
    if moves != [] {
      var m := moves[0];
      if m >= 0 { ParseMoveShow(m); } else { ParseMoveShow(-m); }
      assert ParseMove(ShowMove(m)) == Some(m);
      assert ShowMoves(moves)[0] == ShowMove(m);
      assert ShowMoves(moves)[1..] == ShowMoves(moves[1..]);
      ParseMovesShowMoves(moves[1..]);
      assert [m] + moves[1..] == moves;
    }
  }

  // ---------------------------------------------------------------- part 1

  function Total(s: seq<int>): int
  {
    if s == [] then 0 else Total(s[..|s| - 1]) + s[|s| - 1]
  }

  /** Where the dial would point after the first `k` moves, without wrapping. */
  function Position(moves: seq<int>, k: nat): int
    requires k <= |moves|
  {
    50 + Total(moves[..k])
  }

  /** Rust's `% 100` on a signed integer: the remainder truncated toward
      zero, so it takes the sign of the dividend. */
  function TruncRem100(a: int): (r: int)
    ensures -100 < r < 100
    ensures (a - r) % 100 == 0
    ensures a >= 0 ==> r >= 0
    ensures a <= 0 ==> r <= 0
  {
    if a >= 0 then a % 100
    else
      var b := -a;
      assert b == (b / 100) * 100 + b % 100;
      assert a - (-(b % 100)) == (-(b / 100)) * 100;
      -(b % 100)
  }

  /** Number of moves after which the unwrapped position is a multiple of 100. */
  function Landings(moves: seq<int>): nat
  {
    if moves == [] then 0
    else Landings(moves[..|moves| - 1]) + (if Position(moves, |moves|) % 100 == 0 then 1 else 0)
  }

  lemma {:induction false} LandingsAtMostMoves(moves: seq<int>)
    ensures Landings(moves) <= |moves|
  {
    if moves != [] { LandingsAtMostMoves(moves[..|moves| - 1]); }
  }

  /** A value in (-100, 100) congruent to `x` is zero exactly when `x` is a multiple of 100. */
  lemma ZeroIffMultiple(d: int, x: int)
    requires -100 < d < 100
    requires (d - x) % 100 == 0
    ensures d == 0 <==> x % 100 == 0
  {
    var q := (d - x) / 100;
    assert d - x == q * 100;
    assert x == d - q * 100;
  }

  lemma CongruentStep(dial: int, x: int, m: int)
    requires (dial - x) % 100 == 0
    ensures (TruncRem100(dial + m) - (x + m)) % 100 == 0
  {
    var r := TruncRem100(dial + m);
    var q1 := (dial - x) / 100;
    var q2 := (dial + m - r) / 100;
    assert dial - x == q1 * 100;
    assert dial + m - r == q2 * 100;
    assert r - (x + m) == (q1 - q2) * 100;
  }

  /** `solve_part_1`: the dial keeps the truncated remainder in (-100, 100),
      congruent to the unwrapped position, and the count is the number of
      landings on 0. */
  method SolvePart1(moves: seq<int>) returns (count: nat)
    ensures count == Landings(moves)
    ensures count <= |moves|
  {
    var dial := 50;
    count := 0;
    for i := 0 to |moves|
      invariant -100 < dial < 100
      invariant (dial - Position(moves, i)) % 100 == 0
      invariant count == Landings(moves[..i])
    {
      assert moves[..i + 1][..i] == moves[..i];
      assert moves[..i + 1][..i + 1] == moves[..i + 1];
      assert Position(moves, i + 1) == Position(moves, i) + moves[i];
      CongruentStep(dial, Position(moves, i), moves[i]);
      dial := TruncRem100(dial + moves[i]);
      ZeroIffMultiple(dial, Position(moves, i + 1));
      if dial == 0 {
        count := count + 1;
      }
    }
    assert moves[..|moves|] == moves;
    LandingsAtMostMoves(moves);
  }

  // ---------------------------------------------------------------- part 2

  /** Number of multiples of 100 in the half-open interval [lo, hi). */
  function Multiples(lo: int, hi: int): nat
    decreases hi - lo
  {
    if hi <= lo then 0 else Multiples(lo, hi - 1) + (if (hi - 1) % 100 == 0 then 1 else 0)
  }

  lemma MultiplesHas(lo: int, hi: int, x: int)
    requires lo <= x < hi && x % 100 == 0
    ensures Multiples(lo, hi) >= 1
    decreases hi - lo
  {
    if x < hi - 1 { MultiplesHas(lo, hi - 1, x); }
  }

  lemma FloorStep(b: int)
    ensures FloorDiv(b, 100) - FloorDiv(b - 1, 100) == if b % 100 == 0 then 1 else 0
  {
    var q, r := b / 100, b % 100;
    assert b == q * 100 + r;
    if r == 0 {
      assert b - 1 == (q - 1) * 100 + 99;
    } else {
      assert b - 1 == q * 100 + (r - 1);
    }
  }

  lemma CeilStep(b: int)
    ensures CeilDiv(b, 100) - CeilDiv(b - 1, 100) == if (b - 1) % 100 == 0 then 1 else 0
  {
    FloorStep(1 - b + 100);
    var q, r := (b - 1) / 100, (b - 1) % 100;
    assert b - 1 == q * 100 + r;
    if r == 0 {
      assert -b == (-q - 1) * 100 + 99;
      assert -(b - 1) == -q * 100;
    } else {
      assert -b == (-q - 1) * 100 + (99 - r);
      assert -(b - 1) == (-q - 1) * 100 + (100 - r);
    }
  }

  /** The floor-quotient difference counts the multiples of 100 in (a, b]. */
  lemma {:induction false} FloorDiffIsMultiples(a: int, b: int)
    requires a <= b
    ensures FloorDiv(b, 100) - FloorDiv(a, 100) == Multiples(a + 1, b + 1)
    decreases b - a
  {
    if a < b {
      FloorDiffIsMultiples(a, b - 1);
      FloorStep(b);
    }
  }

  /** The ceiling-quotient difference counts the multiples of 100 in [a, b). */
  lemma {:induction false} CeilDiffIsMultiples(a: int, b: int)
    requires a <= b
    ensures CeilDiv(b, 100) - CeilDiv(a, 100) == Multiples(a, b)
    decreases b - a
  {
    if a < b {
      CeilDiffIsMultiples(a, b - 1);
      CeilStep(b);
    }
  }

  /** The multiples of 100 passed by one move from `prev`: those in
      (prev, prev + mov] when it turns right, in [prev + mov, prev) otherwise. */
  function Crossings(prev: int, mov: int): nat
  {
    if mov > 0 then Multiples(prev + 1, prev + mov + 1) else Multiples(prev + mov, prev)
  }

  function TotalCrossings(moves: seq<int>): nat
  {
    if moves == [] then 0
    else TotalCrossings(moves[..|moves| - 1]) + Crossings(Position(moves, |moves| - 1), moves[|moves| - 1])
  }

  /** `solve_part_2`: each move adds the number of multiples of 100 it passes. */
  method SolvePart2(moves: seq<int>) returns (count: int)
    ensures count == TotalCrossings(moves)
  {
    var dial := 50;
    count := 0;
    for i := 0 to |moves|
      invariant dial == Position(moves, i)
      invariant count == TotalCrossings(moves[..i])
    {
      assert moves[..i + 1][..i] == moves[..i];
      var mov := moves[i];
      var prev := dial;
      dial := dial + mov;
      if mov > 0 {
        FloorDiffIsMultiples(prev, dial);
        count := count + FloorDiv(dial, 100) - FloorDiv(prev, 100);
      } else {
        CeilDiffIsMultiples(dial, prev);
        count := count + CeilDiv(prev, 100) - CeilDiv(dial, 100);
      }
    }
    assert moves[..|moves|] == moves;
  }

  /** With no zero move, every landing on 0 is also a crossing, so part 2 is
      at least part 1. */
  lemma {:induction false} CrossingsCoverLandings(moves: seq<int>)
    requires forall k :: 0 <= k < |moves| ==> moves[k] != 0
    ensures TotalCrossings(moves) >= Landings(moves)
  {
    if moves != [] {
      var init := moves[..|moves| - 1];
      var prev, mov := Position(moves, |moves| - 1), moves[|moves| - 1];
      assert init[..|init|] == init && moves[..|moves|] == moves;
      assert Position(moves, |moves|) == prev + mov;
      CrossingsCoverLandings(init);
      if (prev + mov) % 100 == 0 {
        if mov > 0 { MultiplesHas(prev + 1, prev + mov + 1, prev + mov); }
        else { MultiplesHas(prev + mov, prev, prev + mov); }
      }
    }
  }
}
