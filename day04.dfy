// A grid of paper rolls (`@`) and empty cells (`.`) with 8-neighbour
// adjacency. Part 1 counts the rolls with fewer than four rolls around
// them; part 2 keeps removing such rolls, updating the neighbour counts,
// until none is left: the rolls outside the 4-core of the grid graph.
module Day04 {
  import opened Text

  /** A cell as (row, column); negative or too large values are off the grid. */
  type Cell = (int, int)

  /** `MIN_NEIGHBORS`. */
  const MinNeighbors: nat := 4

  /** `NEIGHBOR_DIRS`: the eight offsets, in the source's order. */
  const Dirs: seq<(int, int)> := [(-1, -1), (-1, 0), (-1, 1), (0, -1), (0, 1), (1, -1), (1, 0), (1, 1)]

  /** All rows as long as the first one, and at least one row. */
  predicate Rectangular(g: seq<seq<bool>>)
  {
    |g| > 0 && forall r :: 0 <= r < |g| ==> |g[r]| == |g[0]|
  }

  /** `in_bounds`. */
  predicate InBounds(g: seq<seq<bool>>, r: int, c: int)
    requires Rectangular(g)
  {
    0 <= r < |g| && 0 <= c < |g[0]|
  }

  /** The cells of the grid. */
  ghost function Cells(g: seq<seq<bool>>): set<Cell>
    requires Rectangular(g)
  {
    set r, c | 0 <= r < |g| && 0 <= c < |g[0]| :: (r, c)
  }

  /** The occupied cells. */
  function Occupied(g: seq<seq<bool>>): (s: set<Cell>)
    requires Rectangular(g)
    ensures s <= Cells(g)
    ensures forall x :: x in s <==> InBounds(g, x.0, x.1) && g[x.0][x.1]
  {
    set r, c | 0 <= r < |g| && 0 <= c < |g[0]| && g[r][c] :: (r, c)
  }

  /** The cell `k` steps along `Dirs` from `x`. */
  function Shift(x: Cell, k: nat): Cell
    requires k < 8
  {
    (x.0 + Dirs[k].0, x.1 + Dirs[k].1)
  }

  /** `y` is one of the eight cells around `x`. */
  predicate IsNeighbour(x: Cell, y: Cell)
  {
    x != y && -1 <= y.0 - x.0 <= 1 && -1 <= y.1 - x.1 <= 1
  }

  /** How many of the first `k` directions from `x` lead into `s`. */
  function CountShifts(s: set<Cell>, x: Cell, k: nat): (n: nat)
    requires k <= 8
    ensures n <= k
  {
    if k == 0 then 0 else CountShifts(s, x, k - 1) + (if Shift(x, k - 1) in s then 1 else 0)
  }

  /** The number of neighbours of `x` that lie in `s`. */
  function NeighbourCount(s: set<Cell>, x: Cell): nat
  {
    CountShifts(s, x, 8)
  }

  /** The eight directions lead to the eight neighbours, each once. */
  lemma ShiftIsNeighbour(x: Cell, y: Cell)
    ensures IsNeighbour(x, y) <==> exists k :: 0 <= k < 8 && Shift(x, k) == y
  {
    if IsNeighbour(x, y) {
      var k := 3 * (y.0 - x.0 + 1) + (y.1 - x.1 + 1);
      var k' := if k > 4 then k - 1 else k;
      assert Shift(x, k') == y;
    }
  }

  lemma ShiftInjective(x: Cell, j: nat, k: nat)
    requires j < 8 && k < 8 && Shift(x, j) == Shift(x, k)
    ensures j == k
  {
  }

  /** Removing a member `z` of `s` lowers the count of `x` by one for the
      first `k` directions when one of them leads to `z`, and not at all otherwise. */
  lemma {:induction false} CountShiftsRemove(s: set<Cell>, z: Cell, x: Cell, k: nat)
    requires z in s && k <= 8
    ensures CountShifts(s - {z}, x, k)
      == CountShifts(s, x, k) - (if exists j :: 0 <= j < k && Shift(x, j) == z then 1 else 0)
  {
    if k > 0 {
      CountShiftsRemove(s, z, x, k - 1);
      if Shift(x, k - 1) == z {
        forall j | 0 <= j < k - 1 ensures Shift(x, j) != z {
          if Shift(x, j) == z { ShiftInjective(x, j, k - 1); }
        }
      }
    }
  }

  /** Removing a cell from `s` lowers the neighbour count of exactly its
      neighbours, by one each. */
  lemma NeighbourCountRemove(s: set<Cell>, z: Cell, x: Cell)
    requires z in s
    ensures NeighbourCount(s - {z}, x) == NeighbourCount(s, x) - (if IsNeighbour(x, z) then 1 else 0)
  {
    CountShiftsRemove(s, z, x, 8);
    ShiftIsNeighbour(x, z);
  }

  lemma {:induction false} CountShiftsMonotone(s: set<Cell>, t: set<Cell>, x: Cell, k: nat)
    requires s <= t && k <= 8
    ensures CountShifts(s, x, k) <= CountShifts(t, x, k)
  {
    if k > 0 { CountShiftsMonotone(s, t, x, k - 1); }
  }

  // ------------------------------------------------------------ neighbours

  /** How many of the first `k` directions lead to an occupied in-bounds cell. */
  function CountDirs(g: seq<seq<bool>>, r: int, c: int, k: nat): (n: nat)
    requires Rectangular(g) && k <= 8
    ensures n == CountShifts(Occupied(g), (r, c), k)
  {
    if k == 0 then 0
    else
      var nr, nc := r + Dirs[k - 1].0, c + Dirs[k - 1].1;
      CountDirs(g, r, c, k - 1) + (if InBounds(g, nr, nc) && g[nr][nc] then 1 else 0)
  }

  /** `count_neighbors`: the number of occupied cells among the eight around
      (r, c), leaving out those off the grid. */
  function CountNeighbors(g: seq<seq<bool>>, r: int, c: int): (n: nat)
    requires Rectangular(g)
    ensures n <= 8
    ensures n == NeighbourCount(Occupied(g), (r, c))
  {
    CountDirs(g, r, c, 8)
  }

  /** `build_neighbor_counts`: the neighbour count of every occupied cell,
      and 0 for every empty one. */
  method BuildNeighborCounts(g: seq<seq<bool>>) returns (counts: seq<seq<nat>>)
    requires Rectangular(g)
    ensures |counts| == |g| && forall r :: 0 <= r < |g| ==> |counts[r]| == |g[0]|
    ensures forall r, c :: 0 <= r < |g| && 0 <= c < |g[0]| ==>
      counts[r][c] == if g[r][c] then NeighbourCount(Occupied(g), (r, c)) else 0
  {
    var cols := |g[0]|;
    counts := [];
    for r := 0 to |g|
      invariant |counts| == r && forall i :: 0 <= i < r ==> |counts[i]| == cols
      invariant forall i, c :: 0 <= i < r && 0 <= c < cols ==>
        counts[i][c] == if g[i][c] then NeighbourCount(Occupied(g), (i, c)) else 0
    {
      var row: seq<nat> := [];
      for c := 0 to cols
        invariant |row| == c
        invariant forall j :: 0 <= j < c ==> row[j] == if g[r][j] then NeighbourCount(Occupied(g), (r, j)) else 0
      {
        row := row + [if g[r][c] then CountNeighbors(g, r, c) else 0];
      }
      counts := counts + [row];
    }
  }

  // ---------------------------------------------------------------- part 1

  /** Occupied cells with fewer than `MinNeighbors` occupied neighbours. */
  function Deficient(g: seq<seq<bool>>): (s: set<Cell>)
    requires Rectangular(g)
    ensures s <= Occupied(g)
  {
    set x | x in Occupied(g) && NeighbourCount(Occupied(g), x) < MinNeighbors
  }

  /** `solve_part_1`: the number of occupied cells with fewer than four
      occupied neighbours. */
  function SolvePart1(g: seq<seq<bool>>): (n: nat)
    requires Rectangular(g)
    ensures n <= |Occupied(g)|
  {
    SubsetCard(Deficient(g), Occupied(g));
    |Deficient(g)|
  }

  lemma SubsetCard<T>(a: set<T>, b: set<T>)
    requires a <= b
    ensures |a| <= |b|
  {
    assert b == a + (b - a);
  }

  // ---------------------------------------------------------------- part 2

  /** Every cell of `s` has at least four neighbours in `s`. */
  ghost predicate Closed(s: set<Cell>)
  {
    forall x {:trigger NeighbourCount(s, x)} :: x in s ==> NeighbourCount(s, x) >= MinNeighbors
  }

  /** The 4-core: the occupied cells that lie in some set of occupied cells
      in which every cell has at least four neighbours. */
  ghost function Core(g: seq<seq<bool>>): (s: set<Cell>)
    requires Rectangular(g)
    ensures s <= Occupied(g)
  {
    set x | x in Occupied(g) && exists s :: s <= Occupied(g) && Closed(s) && x in s
  }

  /** The cells `k` or more steps along `Dirs` from `z`. */
  function Around(z: Cell, k: nat): set<Cell>
    requires k <= 8
  {
    set j | k <= j < 8 :: Shift(z, j)
  }

  /** The state of the peel loop of `solve_part_2`: the working copy of the
      grid holds `live`; every live cell's stored count is its number of live
      neighbours, plus one while the decrement for a removed neighbour is
      still `pending`; a live cell is marked `in_queue` exactly when its
      stored count is below four, and is then still waiting in the queue.
      `marked` is the set of cells ever enqueued; none is enqueued twice. */
  ghost predicate PeelState(g: seq<seq<bool>>, work: seq<seq<bool>>, live: set<Cell>, counts: seq<seq<nat>>,
                           inQueue: seq<seq<bool>>, queue: seq<Cell>, marked: set<Cell>, pending: set<Cell>)
    requires Rectangular(g)
  {
    && Shaped(g, work) && Shaped(g, counts) && Shaped(g, inQueue)
    && live <= Occupied(g) && (forall x :: x in marked ==> InBounds(g, x.0, x.1))
    && (forall r, c :: 0 <= r < |g| && 0 <= c < |g[0]| ==> (work[r][c] <==> (r, c) in live))
    && (forall r, c :: 0 <= r < |g| && 0 <= c < |g[0]| ==> (inQueue[r][c] <==> (r, c) in marked))
    && (forall x {:trigger NeighbourCount(live, x)} :: x in live ==> counts[x.0][x.1] == NeighbourCount(live, x) + if x in pending then 1 else 0)
    && (forall x :: x in live ==> (counts[x.0][x.1] < MinNeighbors <==> x in marked))
    && (forall x :: x in live && x in marked ==> x in queue)
    && (forall i :: 0 <= i < |queue| ==> queue[i] in marked)
    && (forall i, j :: 0 <= i < j < |queue| ==> queue[i] != queue[j])
  }

  predicate Shaped<T>(g: seq<seq<bool>>, a: seq<seq<T>>)
    requires Rectangular(g)
  {
    |a| == |g| && forall r :: 0 <= r < |a| ==> |a[r]| == |g[0]|
  }

  /** The seeding loop of `solve_part_2`: every occupied cell whose count is
      below four is marked and enqueued, in row-major order. */
  method SeedQueue(g: seq<seq<bool>>, counts: seq<seq<nat>>)
    returns (inQueue: seq<seq<bool>>, queue: seq<Cell>, ghost marked: set<Cell>)
    requires Rectangular(g) && Shaped(g, counts)
    ensures Shaped(g, inQueue)
    ensures forall x :: x in marked <==> x in Occupied(g) && counts[x.0][x.1] < MinNeighbors
    ensures forall r, c :: 0 <= r < |g| && 0 <= c < |g[0]| ==> (inQueue[r][c] <==> (r, c) in marked)
    ensures forall x :: x in queue <==> x in marked
    ensures forall i, j :: 0 <= i < j < |queue| ==> queue[i] != queue[j]
  {
    var cols := |g[0]|;
    inQueue := seq(|g|, _ => seq(cols, _ => false));
    queue, marked := [], {};
    for r := 0 to |g|
      invariant Shaped(g, inQueue)
      invariant forall x :: x in marked <==> x in Occupied(g) && counts[x.0][x.1] < MinNeighbors && x.0 < r
      invariant forall i, c :: 0 <= i < |g| && 0 <= c < cols ==> (inQueue[i][c] <==> (i, c) in marked)
      invariant forall x :: x in queue <==> x in marked
      invariant forall i, j :: 0 <= i < j < |queue| ==> queue[i] != queue[j]
    {
      inQueue, queue, marked := SeedRow(g, counts, r, inQueue, queue, marked);
    }
  }

  /** Row `r` of the seeding loop: its occupied cells with too few
      neighbours join the queue, left to right. */
  method SeedRow(g: seq<seq<bool>>, counts: seq<seq<nat>>, r: nat,
                 inQueue: seq<seq<bool>>, queue: seq<Cell>, ghost marked: set<Cell>)
    returns (inQueue': seq<seq<bool>>, queue': seq<Cell>, ghost marked': set<Cell>)
    requires Rectangular(g) && Shaped(g, counts) && Shaped(g, inQueue) && r < |g|
    requires forall x :: x in marked <==> x in Occupied(g) && counts[x.0][x.1] < MinNeighbors && x.0 < r
    requires forall i, c :: 0 <= i < |g| && 0 <= c < |g[0]| ==> (inQueue[i][c] <==> (i, c) in marked)
    requires forall x :: x in queue <==> x in marked
    requires forall i, j :: 0 <= i < j < |queue| ==> queue[i] != queue[j]
    ensures Shaped(g, inQueue')
    ensures forall x :: x in marked' <==> x in Occupied(g) && counts[x.0][x.1] < MinNeighbors && x.0 < r + 1
    ensures forall i, c :: 0 <= i < |g| && 0 <= c < |g[0]| ==> (inQueue'[i][c] <==> (i, c) in marked')
    ensures forall x :: x in queue' <==> x in marked'
    ensures forall i, j :: 0 <= i < j < |queue'| ==> queue'[i] != queue'[j]
  {
    var cols := |g[0]|;
    inQueue', queue', marked' := inQueue, queue, marked;
    for c := 0 to cols
      invariant Shaped(g, inQueue')
      invariant forall x :: x in marked' <==> x in Occupied(g) && counts[x.0][x.1] < MinNeighbors && (x.0 < r || (x.0 == r && x.1 < c))
      invariant forall i, c' :: 0 <= i < |g| && 0 <= c' < cols ==> (inQueue'[i][c'] <==> (i, c') in marked')
      invariant forall x :: x in queue' <==> x in marked'
      invariant forall i, j :: 0 <= i < j < |queue'| ==> queue'[i] != queue'[j]
    {
      if g[r][c] && counts[r][c] < MinNeighbors {
        assert (r, c) !in queue';
        inQueue' := inQueue'[r := inQueue'[r][c := true]];
        queue' := queue' + [(r, c)];
        marked' := marked' + {(r, c)};
      }
    }
  }

  /** The inner loop of `solve_part_2` after the cell `z` was taken off the
      grid: every live neighbour of `z` has its count lowered by one, and is
      enqueued when the count falls below four and it was never enqueued. */
  method ReleaseNeighbours(g: seq<seq<bool>>, work: seq<seq<bool>>, ghost live: set<Cell>, z: Cell,
                           counts: seq<seq<nat>>, inQueue: seq<seq<bool>>, queue: seq<Cell>, ghost marked: set<Cell>)
    returns (counts': seq<seq<nat>>, inQueue': seq<seq<bool>>, queue': seq<Cell>, ghost marked': set<Cell>)
    requires Rectangular(g)
    requires PeelState(g, work, live, counts, inQueue, queue, marked, Around(z, 0))
    ensures PeelState(g, work, live, counts', inQueue', queue', marked', {})
    ensures marked <= marked' && |queue| <= |queue'| && queue'[..|queue|] == queue
    ensures |Cells(g) - marked'| <= |Cells(g) - marked|
    ensures |queue'| > |queue| ==> |Cells(g) - marked'| < |Cells(g) - marked|
  {
    counts', inQueue', queue', marked' := counts, inQueue, queue, marked;
    for k := 0 to 8
      invariant PeelState(g, work, live, counts', inQueue', queue', marked', Around(z, k))
      invariant marked <= marked' && |queue| <= |queue'| && queue'[..|queue|] == queue
      invariant |Cells(g) - marked'| <= |Cells(g) - marked|
      invariant |queue'| > |queue| ==> |Cells(g) - marked'| < |Cells(g) - marked|
    {
      counts', inQueue', queue', marked' := ReleaseDirection(g, work, live, z, k, counts', inQueue', queue', marked');
    }
    assert Around(z, 8) == {};
  }

  /** One pass of the inner loop of `solve_part_2`: the direction `k` from
      the removed cell `z`. */
  method ReleaseDirection(g: seq<seq<bool>>, work: seq<seq<bool>>, ghost live: set<Cell>, z: Cell, k: nat,
                          counts: seq<seq<nat>>, inQueue: seq<seq<bool>>, queue: seq<Cell>, ghost marked: set<Cell>)
    returns (counts': seq<seq<nat>>, inQueue': seq<seq<bool>>, queue': seq<Cell>, ghost marked': set<Cell>)
    requires Rectangular(g) && k < 8
    requires PeelState(g, work, live, counts, inQueue, queue, marked, Around(z, k))
    ensures PeelState(g, work, live, counts', inQueue', queue', marked', Around(z, k + 1))
    ensures marked <= marked' && |queue| <= |queue'| && queue'[..|queue|] == queue
    ensures |Cells(g) - marked'| <= |Cells(g) - marked|
    ensures |queue'| > |queue| ==> |Cells(g) - marked'| < |Cells(g) - marked|
  {
    counts', inQueue', queue', marked' := counts, inQueue, queue, marked;
    var nr, nc := z.0 + Dirs[k].0, z.1 + Dirs[k].1;
    assert (nr, nc) == Shift(z, k);
    if InBounds(g, nr, nc) && work[nr][nc] {
      if counts'[nr][nc] > 0 {
        counts' := counts'[nr := counts'[nr][nc := counts'[nr][nc] - 1]];
      }
      if counts'[nr][nc] < MinNeighbors && !inQueue'[nr][nc] {
        inQueue' := inQueue'[nr := inQueue'[nr][nc := true]];
        queue' := queue' + [(nr, nc)];
        marked' := marked' + {(nr, nc)};
      }
    }
    DirectionStep(g, work, live, counts, inQueue, queue, marked, z, k, counts', inQueue', queue', marked');
  }

  /** What one pass of the inner loop does to the cell `y`: when it is live,
      lower its count unless it is already 0, and enqueue it when the count
      is below four and it was never enqueued; otherwise change nothing. */
  ghost predicate DirectionUpdate(g: seq<seq<bool>>, work: seq<seq<bool>>, counts: seq<seq<nat>>,
                                  inQueue: seq<seq<bool>>, queue: seq<Cell>, marked: set<Cell>, y: Cell,
                                  counts': seq<seq<nat>>, inQueue': seq<seq<bool>>, queue': seq<Cell>, marked': set<Cell>)
    requires Rectangular(g) && Shaped(g, work) && Shaped(g, counts) && Shaped(g, inQueue)
  {
    if InBounds(g, y.0, y.1) && work[y.0][y.1] then
      var n := counts[y.0][y.1];
      var n' := if n > 0 then n - 1 else n;
      && counts' == (if n > 0 then counts[y.0 := counts[y.0][y.1 := n']] else counts)
      && if n' < MinNeighbors && !inQueue[y.0][y.1]
         then inQueue' == inQueue[y.0 := inQueue[y.0][y.1 := true]] && queue' == queue + [y] && marked' == marked + {y}
         else inQueue' == inQueue && queue' == queue && marked' == marked
    else
      counts' == counts && inQueue' == inQueue && queue' == queue && marked' == marked
  }

  /** One pass of the inner loop keeps the peel state with one pending
      decrement fewer, and enqueues only never-marked cells. */
  lemma DirectionStep(g: seq<seq<bool>>, work: seq<seq<bool>>, live: set<Cell>, counts: seq<seq<nat>>,
                      inQueue: seq<seq<bool>>, queue: seq<Cell>, marked: set<Cell>, z: Cell, k: nat,
                      counts': seq<seq<nat>>, inQueue': seq<seq<bool>>, queue': seq<Cell>, marked': set<Cell>)
    requires Rectangular(g) && k < 8
    requires PeelState(g, work, live, counts, inQueue, queue, marked, Around(z, k))
    requires DirectionUpdate(g, work, counts, inQueue, queue, marked, Shift(z, k), counts', inQueue', queue', marked')
    ensures PeelState(g, work, live, counts', inQueue', queue', marked', Around(z, k + 1))
    ensures marked <= marked' && |queue| <= |queue'| && queue'[..|queue|] == queue
    ensures |Cells(g) - marked'| <= |Cells(g) - marked|
    ensures |queue'| > |queue| ==> |Cells(g) - marked'| < |Cells(g) - marked|
  {
    var y := Shift(z, k);
    if InBounds(g, y.0, y.1) && work[y.0][y.1] {
      LiveNeighbourCount(g, work, live, counts, inQueue, queue, marked, z, k);
      if queue' != queue {
        MarkOne(Cells(g), marked, y);
      }
      DecrementDirection(g, work, live, counts, inQueue, queue, marked, z, k, counts', inQueue', queue', marked');
    } else {
      SkipDirection(g, work, live, counts, inQueue, queue, marked, z, k);
    }
  }

  /** A direction from `z` that leads off the grid or to an empty cell
      changes nothing but the pending set. */
  lemma SkipDirection(g: seq<seq<bool>>, work: seq<seq<bool>>, live: set<Cell>, counts: seq<seq<nat>>,
                      inQueue: seq<seq<bool>>, queue: seq<Cell>, marked: set<Cell>, z: Cell, k: nat)
    requires Rectangular(g) && k < 8
    requires PeelState(g, work, live, counts, inQueue, queue, marked, Around(z, k))
    requires var y := Shift(z, k); !InBounds(g, y.0, y.1) || !work[y.0][y.1]
    ensures PeelState(g, work, live, counts, inQueue, queue, marked, Around(z, k + 1))
  {
    AroundStep(z, k);
    assert Shift(z, k) !in live;
  }

  /** A live neighbour still waits for its decrement, so its stored count
      is one above its live-neighbour count. */
  lemma LiveNeighbourCount(g: seq<seq<bool>>, work: seq<seq<bool>>, live: set<Cell>, counts: seq<seq<nat>>,
                           inQueue: seq<seq<bool>>, queue: seq<Cell>, marked: set<Cell>, z: Cell, k: nat)
    requires Rectangular(g) && k < 8
    requires PeelState(g, work, live, counts, inQueue, queue, marked, Around(z, k))
    requires var y := Shift(z, k); InBounds(g, y.0, y.1) && work[y.0][y.1]
    ensures var y := Shift(z, k); y in live && counts[y.0][y.1] == NeighbourCount(live, y) + 1
  {
    AroundStep(z, k);
  }

  /** Decrementing a live neighbour's count, and enqueueing it when the
      count falls below four for the first time, restores the peel state
      with one decrement fewer pending. */
  lemma DecrementDirection(g: seq<seq<bool>>, work: seq<seq<bool>>, live: set<Cell>, counts: seq<seq<nat>>,
                           inQueue: seq<seq<bool>>, queue: seq<Cell>, marked: set<Cell>, z: Cell, k: nat,
                           counts': seq<seq<nat>>, inQueue': seq<seq<bool>>, queue': seq<Cell>, marked': set<Cell>)
    requires Rectangular(g) && k < 8
    requires PeelState(g, work, live, counts, inQueue, queue, marked, Around(z, k))
    requires var y := Shift(z, k); y in live && counts[y.0][y.1] == NeighbourCount(live, y) + 1
    requires var y := Shift(z, k); counts' == counts[y.0 := counts[y.0][y.1 := counts[y.0][y.1] - 1]]
    requires var y := Shift(z, k);
      if counts'[y.0][y.1] < MinNeighbors && !inQueue[y.0][y.1]
      then inQueue' == inQueue[y.0 := inQueue[y.0][y.1 := true]] && queue' == queue + [y] && marked' == marked + {y}
      else inQueue' == inQueue && queue' == queue && marked' == marked
    ensures PeelState(g, work, live, counts', inQueue', queue', marked', Around(z, k + 1))
  {
    AroundStep(z, k);
    var y := Shift(z, k);
    forall x | x in live
      ensures counts'[x.0][x.1] == NeighbourCount(live, x) + if x in Around(z, k + 1) then 1 else 0
      ensures counts'[x.0][x.1] < MinNeighbors <==> x in marked'
    {
      if x != y {
        assert counts'[x.0][x.1] == counts[x.0][x.1];
      }
    }
  }

  lemma AroundStep(z: Cell, k: nat)
    requires k < 8
    ensures Shift(z, k) in Around(z, k)
    ensures Around(z, k + 1) == Around(z, k) - {Shift(z, k)}
  {
    forall j | k < j < 8 ensures Shift(z, j) != Shift(z, k) {
      if Shift(z, j) == Shift(z, k) { ShiftInjective(z, j, k); }
    }
  }

  /** Marking one more cell of the grid leaves one cell fewer unmarked. */
  lemma MarkOne(cells: set<Cell>, marked: set<Cell>, y: Cell)
    requires y in cells && y !in marked
    ensures |cells - (marked + {y})| == |cells - marked| - 1
  {
    assert cells - (marked + {y}) == (cells - marked) - {y};
  }

  /** A cell is among the cells around `z` exactly when it is a neighbour of `z`. */
  lemma AroundIsNeighbours(z: Cell, x: Cell)
    ensures x in Around(z, 0) <==> IsNeighbour(x, z)
  {
    ShiftIsNeighbour(z, x);
    if IsNeighbour(z, x) {
      var k :| 0 <= k < 8 && Shift(z, k) == x;
      assert Shift(z, k) in Around(z, 0);
    }
  }

  /** `solve_part_2`: peel the grid with a work queue and count the removed
      cells. Those are exactly the occupied cells outside the 4-core, at
      least as many as part 1 counts, and each cell is removed at most once. */
  method SolvePart2(g: seq<seq<bool>>) returns (removed: nat)
    requires Rectangular(g)
    ensures removed == |Occupied(g) - Core(g)|
    ensures SolvePart1(g) <= removed <= |Occupied(g)|
  {
    var counts := BuildNeighborCounts(g);
    var work := g;
    ghost var live := Occupied(g);
    var inQueue, queue, marked := SeedQueue(g, counts);
    removed := 0;
    PeelStart(g, counts, inQueue, queue, marked);
    while queue != []
      invariant PeelInvariant(g, work, live, counts, inQueue, queue, marked, removed)
      decreases |Cells(g) - marked|, |queue|
    {
      work, live, counts, inQueue, queue, marked, removed := PeelHead(g, work, live, counts, inQueue, queue, marked, removed);
    }
    PeelDone(g, work, live, counts, inQueue, marked, removed);
  }

  /** The grid, its neighbour counts and the seeded queue satisfy the
      invariant of the peel loop before any cell is removed. */
  lemma PeelStart(g: seq<seq<bool>>, counts: seq<seq<nat>>, inQueue: seq<seq<bool>>, queue: seq<Cell>, marked: set<Cell>)
    requires Rectangular(g) && Shaped(g, counts) && Shaped(g, inQueue)
    requires forall r, c :: 0 <= r < |g| && 0 <= c < |g[0]| ==>
      counts[r][c] == if g[r][c] then NeighbourCount(Occupied(g), (r, c)) else 0
    requires forall x :: x in marked <==> x in Occupied(g) && counts[x.0][x.1] < MinNeighbors
    requires forall r, c :: 0 <= r < |g| && 0 <= c < |g[0]| ==> (inQueue[r][c] <==> (r, c) in marked)
    requires forall x :: x in queue <==> x in marked
    requires forall i, j :: 0 <= i < j < |queue| ==> queue[i] != queue[j]
    ensures PeelInvariant(g, g, Occupied(g), counts, inQueue, queue, marked, 0)
  {
    assert Occupied(g) - Occupied(g) == {};
  }

  /** When the queue runs empty every live cell keeps four live
      neighbours, so the live cells are the 4-core and the removed ones are
      the rest, among them every initially deficient cell. */
  lemma PeelDone(g: seq<seq<bool>>, work: seq<seq<bool>>, live: set<Cell>, counts: seq<seq<nat>>,
                 inQueue: seq<seq<bool>>, marked: set<Cell>, removed: nat)
    requires Rectangular(g)
    requires PeelInvariant(g, work, live, counts, inQueue, [], marked, removed)
    ensures removed == |Occupied(g) - Core(g)|
    ensures SolvePart1(g) <= removed <= |Occupied(g)|
  {
    forall x | x in live ensures NeighbourCount(live, x) >= MinNeighbors {
      assert x !in marked;
    }
    FinalIsCore(g, live);
    DeficientOutsideCore(g, live);
    SubsetCard(Deficient(g), Occupied(g) - live);
    SubsetCard(Occupied(g) - live, Occupied(g));
  }

  /** The invariant of the peel loop: the peel state with nothing pending,
      `removed` counting the occupied cells taken off, and every closed set of
      occupied cells still live. */
  ghost predicate PeelInvariant(g: seq<seq<bool>>, work: seq<seq<bool>>, live: set<Cell>, counts: seq<seq<nat>>,
                               inQueue: seq<seq<bool>>, queue: seq<Cell>, marked: set<Cell>, removed: nat)
    requires Rectangular(g)
  {
    && PeelState(g, work, live, counts, inQueue, queue, marked, {})
    && removed == |Occupied(g) - live|
    && forall s :: s <= Occupied(g) && Closed(s) ==> s <= live
  }

  /** One pass of the peel loop of `solve_part_2`: pop the head of the queue
      and, when it is still on the grid, take it off and release its
      neighbours. */
  method PeelHead(g: seq<seq<bool>>, work: seq<seq<bool>>, ghost live: set<Cell>, counts: seq<seq<nat>>,
                  inQueue: seq<seq<bool>>, queue: seq<Cell>, ghost marked: set<Cell>, removed: nat)
    returns (work': seq<seq<bool>>, ghost live': set<Cell>, counts': seq<seq<nat>>,
             inQueue': seq<seq<bool>>, queue': seq<Cell>, ghost marked': set<Cell>, removed': nat)
    requires Rectangular(g) && queue != []
    requires PeelInvariant(g, work, live, counts, inQueue, queue, marked, removed)
    ensures PeelInvariant(g, work', live', counts', inQueue', queue', marked', removed')
    ensures |Cells(g) - marked'| < |Cells(g) - marked|
      || (|Cells(g) - marked'| == |Cells(g) - marked| && |queue'| < |queue|)
  {
    var x := queue[0];
    if !work[x.0][x.1] {
      SkipRemoved(g, work, live, counts, inQueue, queue, marked);
      return work, live, counts, inQueue, queue[1..], marked, removed;
    }
    RemoveStep(g, work, live, counts, inQueue, queue, marked);
    work' := work[x.0 := work[x.0][x.1 := false]];
    live' := live - {x};
    removed' := removed + 1;
    counts', inQueue', queue', marked' := ReleaseNeighbours(g, work', live', x, counts, inQueue, queue[1..], marked);
  }

  /** Popping a cell that was already removed keeps the peel state. */
  lemma SkipRemoved(g: seq<seq<bool>>, work: seq<seq<bool>>, live: set<Cell>, counts: seq<seq<nat>>,
                    inQueue: seq<seq<bool>>, queue: seq<Cell>, marked: set<Cell>)
    requires Rectangular(g) && queue != []
    requires PeelState(g, work, live, counts, inQueue, queue, marked, {})
    requires var x := queue[0]; InBounds(g, x.0, x.1) && !work[x.0][x.1]
    ensures PeelState(g, work, live, counts, inQueue, queue[1..], marked, {})
  {
    forall x | x in live && x in marked ensures x in queue[1..] {
      assert x in queue && x != queue[0];
    }
  }

  /** Popping a live cell: it has fewer than four live neighbours, so it
      lies in no closed set of occupied cells and taking it off keeps them
      all live; afterwards each of its neighbours owes one decrement. */
  lemma RemoveStep(g: seq<seq<bool>>, work: seq<seq<bool>>, live: set<Cell>, counts: seq<seq<nat>>,
                   inQueue: seq<seq<bool>>, queue: seq<Cell>, marked: set<Cell>)
    requires Rectangular(g) && queue != []
    requires PeelState(g, work, live, counts, inQueue, queue, marked, {})
    requires forall s :: s <= Occupied(g) && Closed(s) ==> s <= live
    requires var x := queue[0]; InBounds(g, x.0, x.1) && work[x.0][x.1]
    ensures var x := queue[0];
      PeelState(g, work[x.0 := work[x.0][x.1 := false]], live - {x}, counts, inQueue, queue[1..], marked, Around(x, 0))
    ensures var x := queue[0]; |Occupied(g) - (live - {x})| == |Occupied(g) - live| + 1
    ensures var x := queue[0]; forall s :: s <= Occupied(g) && Closed(s) ==> s <= live - {x}
  {
    var x := queue[0];
    var live' := live - {x};
    assert x in live && counts[x.0][x.1] == NeighbourCount(live, x) < MinNeighbors;
    CountsAfterRemove(live, counts, x);
    ClearCell(g, work, live, x);
    PopQueue(queue, marked, live);
    assert Occupied(g) - live' == (Occupied(g) - live) + {x};
    RemoveDeficient(g, live, x, counts[x.0][x.1]);
  }

  /** Once `x` leaves the live set, each stored count of a live cell is one
      more than its true count exactly when the cell is around `x`. */
  lemma CountsAfterRemove(live: set<Cell>, counts: seq<seq<nat>>, x: Cell)
    requires x in live
    requires forall y :: y in live ==> 0 <= y.0 < |counts| && 0 <= y.1 < |counts[y.0]|
    requires forall y {:trigger NeighbourCount(live, y)} :: y in live ==> counts[y.0][y.1] == NeighbourCount(live, y)
    ensures forall y {:trigger NeighbourCount(live - {x}, y)} :: y in live - {x} ==>
      counts[y.0][y.1] == NeighbourCount(live - {x}, y) + if y in Around(x, 0) then 1 else 0
  {
    forall y | y in live - {x} ensures counts[y.0][y.1] == NeighbourCount(live - {x}, y) + if y in Around(x, 0) then 1 else 0 {
      NeighbourCountRemove(live, x, y);
      AroundIsNeighbours(x, y);
    }
  }

  /** Taking the head off a queue of distinct marked cells that holds every
      marked live cell leaves a queue holding every marked live cell but it. */
  lemma PopQueue(queue: seq<Cell>, marked: set<Cell>, live: set<Cell>)
    requires queue != []
    requires forall x :: x in live && x in marked ==> x in queue
    requires forall i :: 0 <= i < |queue| ==> queue[i] in marked
    requires forall i, j :: 0 <= i < j < |queue| ==> queue[i] != queue[j]
    ensures forall x :: x in live - {queue[0]} && x in marked ==> x in queue[1..]
    ensures forall i :: 0 <= i < |queue[1..]| ==> queue[1..][i] in marked
    ensures forall i, j :: 0 <= i < j < |queue[1..]| ==> queue[1..][i] != queue[1..][j]
  {
    forall y | y in live - {queue[0]} && y in marked ensures y in queue[1..] {
      assert y in queue && y != queue[0];
    }
  }

  /** Clearing a live cell in the working grid keeps the grid in step with
      the live set less that cell. */
  lemma ClearCell(g: seq<seq<bool>>, work: seq<seq<bool>>, live: set<Cell>, x: Cell)
    requires Rectangular(g) && Shaped(g, work) && InBounds(g, x.0, x.1)
    requires forall r, c :: 0 <= r < |g| && 0 <= c < |g[0]| ==> (work[r][c] <==> (r, c) in live)
    ensures Shaped(g, work[x.0 := work[x.0][x.1 := false]])
    ensures forall r, c :: 0 <= r < |g| && 0 <= c < |g[0]| ==>
      (work[x.0 := work[x.0][x.1 := false]][r][c] <==> (r, c) in live - {x})
  {
  }

  /** A cell with fewer than four live neighbours lies in no closed set of
      live cells, so removing it keeps every such set inside the live cells. */
  lemma RemoveDeficient(g: seq<seq<bool>>, live: set<Cell>, x: Cell, count: nat)
    requires Rectangular(g)
    requires count == NeighbourCount(live, x) && count < MinNeighbors
    requires forall s :: s <= Occupied(g) && Closed(s) ==> s <= live
    ensures forall s :: s <= Occupied(g) && Closed(s) ==> s <= live - {x}
  {
    forall s | s <= Occupied(g) && Closed(s) ensures s <= live - {x} {
      if x in s {
        assert NeighbourCount(s, x) >= MinNeighbors;
        CountShiftsMonotone(s, live, x, 8);
        assert false;
      }
    }
  }

  /** Live cells that all keep four live neighbours are the 4-core, when
      every closed set of occupied cells stays live. */
  lemma FinalIsCore(g: seq<seq<bool>>, live: set<Cell>)
    requires Rectangular(g) && live <= Occupied(g) && Closed(live)
    requires forall s :: s <= Occupied(g) && Closed(s) ==> s <= live
    ensures live == Core(g)
  {
    forall x | x in live ensures x in Core(g) {
      assert live <= Occupied(g) && Closed(live) && x in live;
    }
    forall x | x in Core(g) ensures x in live {
      var s :| s <= Occupied(g) && Closed(s) && x in s;
    }
  }

  /** An initially deficient cell is in no closed set of occupied cells. */
  lemma DeficientOutsideCore(g: seq<seq<bool>>, core: set<Cell>)
    requires Rectangular(g) && core <= Occupied(g) && Closed(core)
    ensures Deficient(g) <= Occupied(g) - core
  {
    forall x | x in Deficient(g) ensures x !in core {
      if x in core {
        assert NeighbourCount(core, x) >= MinNeighbors;
        CountShiftsMonotone(core, Occupied(g), x, 8);
        assert false;
      }
    }
  }

  // ---------------------------------------------------------------- parsing

  /** One row: `.` is empty and `@` is occupied; any other character is
      `unreachable!()` in the source, `None` here. */
  function ParseRow(line: string): (r: Option<seq<bool>>)
    ensures r.Some? <==> forall j :: 0 <= j < |line| ==> line[j] == '.' || line[j] == '@'
    ensures r.Some? ==> |r.value| == |line|
    ensures r.Some? ==> forall j :: 0 <= j < |line| ==> (r.value[j] <==> line[j] == '@')
  {
    if line == [] then Some([])
    else match ParseRow(line[1..])
      case None => None
      case Some(rest) =>
        if line[0] == '.' then Some([false] + rest)
        else if line[0] == '@' then Some([true] + rest)
        else None
  }

  function ParseRows(lines: seq<string>): (r: Option<seq<seq<bool>>>)
    ensures r.Some? ==> |r.value| == |lines|
  {
    if lines == [] then Some([])
    else match (ParseRow(Trim(lines[0])), ParseRows(lines[1..]))
      case (Some(row), Some(rows)) => Some([row] + rows)
      case _ => None
  }

  /** `Day::create`: the trimmed text's lines, each trimmed, as rows. The
      source panics on an empty grid; a ragged grid, which the source does
      not check, is refused here too. */
  function Create(input: string): (r: Option<seq<seq<bool>>>)
    ensures r.Some? ==> Rectangular(r.value)
  {
    match ParseRows(Lines(Trim(input)))
    case Some(g) => if Rectangular(g) then Some(g) else None
    case None => None
  }

  /** The row as written in the input. */
  function ShowRow(row: seq<bool>): (line: string)
    ensures |line| == |row|
  {
    if row == [] then [] else [if row[0] then '@' else '.'] + ShowRow(row[1..])
  }

  /** Parsing a written row gives the row back. */
  lemma {:induction false} ParseShowRow(row: seq<bool>)
    ensures ParseRow(ShowRow(row)) == Some(row)
  {
    if row != [] {
      var line := ShowRow(row);
      assert line[1..] == ShowRow(row[1..]);
      ParseShowRow(row[1..]);
      assert [row[0]] + row[1..] == row;
    }
  }
}
