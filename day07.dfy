// A manifold of beam splitters. A beam enters at `S` and falls one row per
// step; when the cell below it holds a splitter (`^`) it continues from the
// cells down-left and down-right of its position, otherwise straight down.
// Part 1 follows a frontier of beam positions, dropping a position equal to
// the one pushed just before it, and counts the split events; part 2 keeps a
// count of timelines per position and reports the number of timelines once
// the last splitter row is reached.
module Day07 {
  import opened Text
  import opened Sets

  /** `Pos`: (row, column). */
  type Pos = (nat, nat)

  /** `Day`: the start cell and the set of splitter cells. */
  datatype Puzzle = Puzzle(start: Pos, splitters: set<Pos>)

  function Below(b: Pos): Pos { (b.0 + 1, b.1) }

  /** A beam in column 0 above a splitter: the source computes `c - 1` on
      `usize` there and panics. */
  predicate Blocked(b: Pos, splitters: set<Pos>)
  {
    Below(b) in splitters && b.1 == 0
  }

  /** `q` is one of the cells a beam at `b` continues from. */
  predicate Moves(b: Pos, q: Pos, splitters: set<Pos>)
  {
    q.0 == b.0 + 1 &&
    if Below(b) in splitters then q.1 + 1 == b.1 || q.1 == b.1 + 1 else q.1 == b.1
  }

  // ------------------------------------------------------------ unique_push

  predicate NoAdjacentDup(v: seq<Pos>)
  {
    forall i :: 0 < i < |v| ==> v[i - 1] != v[i]
  }

  /** `unique_push`: append `pos` unless it is already the last entry. */
  function UniquePush(v: seq<Pos>, pos: Pos): (w: seq<Pos>)
    ensures |w| > 0 && w[|w| - 1] == pos
    ensures w == v <==> |v| > 0 && v[|v| - 1] == pos
    ensures w != v ==> w == v + [pos]
  {
    if |v| > 0 && v[|v| - 1] == pos then v else v + [pos]
  }

  /** `unique_push` never puts the same cell twice in a row. */
  lemma UniquePushNoAdjacentDup(v: seq<Pos>, pos: Pos)
    requires NoAdjacentDup(v)
    ensures NoAdjacentDup(UniquePush(v, pos))
  {
  }

  /** `unique_push` keeps what was there and adds `pos`, nothing else. */
  lemma UniquePushElements(v: seq<Pos>, pos: Pos, q: Pos)
    ensures q in UniquePush(v, pos) <==> q in v || q == pos
  {
  }

  // ---------------------------------------------------------------- part 1

  /** The frontier after one step: every beam, in order, pushes the cells it
      continues from through `unique_push`. `None` where the source panics. */
  function NextFrontier(beams: seq<Pos>, splitters: set<Pos>): Option<seq<Pos>>
  {
    if beams == [] then Some([])
    else
      var init, b := beams[..|beams| - 1], beams[|beams| - 1];
      match NextFrontier(init, splitters)
      case None => None
      case Some(v) => PushMoves(v, b, splitters)
  }

  /** One beam's pushes: both cells beside the splitter below it, or the
      cell below. */
  function PushMoves(v: seq<Pos>, b: Pos, splitters: set<Pos>): (r: Option<seq<Pos>>)
    ensures r.None? <==> Blocked(b, splitters)
  {
    if Below(b) in splitters then
      if b.1 == 0 then None
      else Some(UniquePush(UniquePush(v, (b.0 + 1, b.1 - 1)), (b.0 + 1, b.1 + 1)))
    else Some(UniquePush(v, Below(b)))
  }

  /** A frontier never holds the same cell twice in a row, and each beam
      adds at most two cells. */
  lemma {:induction false} FrontierShape(beams: seq<Pos>, splitters: set<Pos>)
    requires NextFrontier(beams, splitters).Some?
    ensures NoAdjacentDup(NextFrontier(beams, splitters).value)
    ensures |NextFrontier(beams, splitters).value| <= 2 * |beams|
  {
    if beams != [] {
      var init, b := beams[..|beams| - 1], beams[|beams| - 1];
      FrontierShape(init, splitters);
      var v := NextFrontier(init, splitters).value;
      assert NextFrontier(beams, splitters) == PushMoves(v, b, splitters);
      UniquePushNoAdjacentDup(v, Below(b));
      if b.1 > 0 {
        var left := (b.0 + 1, b.1 - 1);
        UniquePushNoAdjacentDup(v, left);
        UniquePushNoAdjacentDup(UniquePush(v, left), (b.0 + 1, b.1 + 1));
      }
    }
  }

  /** The frontier and the split count of one more beam. */
  lemma FrontierSnoc(beams: seq<Pos>, i: nat, splitters: set<Pos>)
    requires i < |beams|
    ensures NextFrontier(beams[..i + 1], splitters)
      == if NextFrontier(beams[..i], splitters).None? then None
         else PushMoves(NextFrontier(beams[..i], splitters).value, beams[i], splitters)
    ensures SplitCount(beams[..i + 1], splitters)
      == SplitCount(beams[..i], splitters) + if Below(beams[i]) in splitters then 1 else 0
  {
    assert beams[..i + 1][..i] == beams[..i];
  }

  /** A blocked beam makes the step fail. */
  lemma {:induction false} BlockedStops(beams: seq<Pos>, i: nat, splitters: set<Pos>)
    requires i < |beams| && Blocked(beams[i], splitters)
    ensures NextFrontier(beams, splitters).None?
  {
    var init, b := beams[..|beams| - 1], beams[|beams| - 1];
    if i < |init| {
      assert init[i] == beams[i];
      BlockedStops(init, i, splitters);
    } else if NextFrontier(init, splitters).Some? {
      assert b == beams[i];
      assert PushMoves(NextFrontier(init, splitters).value, b, splitters).None?;
    }
  }

  /** A failed step has a blocked beam. */
  lemma {:induction false} StopsBlocked(beams: seq<Pos>, splitters: set<Pos>) returns (i: nat)
    requires NextFrontier(beams, splitters).None?
    ensures i < |beams| && Blocked(beams[i], splitters)
  {
    var init := beams[..|beams| - 1];
    if NextFrontier(init, splitters).None? {
      i := StopsBlocked(init, splitters);
      assert init[i] == beams[i];
    } else {
      i := |beams| - 1;
    }
  }

  /** The step fails exactly when some beam is blocked. */
  lemma FrontierBlocked(beams: seq<Pos>, splitters: set<Pos>)
    ensures NextFrontier(beams, splitters).None? <==> exists i :: 0 <= i < |beams| && Blocked(beams[i], splitters)
  {
    if NextFrontier(beams, splitters).None? {
      var i := StopsBlocked(beams, splitters);
    }
    if i :| 0 <= i < |beams| && Blocked(beams[i], splitters) {
      BlockedStops(beams, i, splitters);
    }
  }

  /** Every cell a beam continues from is in the next frontier. */
  lemma {:induction false} MovesInFrontier(beams: seq<Pos>, i: nat, q: Pos, splitters: set<Pos>)
    requires NextFrontier(beams, splitters).Some?
    requires i < |beams| && Moves(beams[i], q, splitters)
    ensures q in NextFrontier(beams, splitters).value
  {
    var init, b := beams[..|beams| - 1], beams[|beams| - 1];
    var v := NextFrontier(init, splitters).value;
    assert NextFrontier(beams, splitters) == PushMoves(v, b, splitters);
    if i < |init| {
      assert init[i] == beams[i];
      MovesInFrontier(init, i, q, splitters);
    } else {
      assert b == beams[i];
    }
    PushMovesElements(v, b, q, splitters);
  }

  /** Every cell of the next frontier is one a beam continues from. */
  lemma {:induction false} FrontierFrom(beams: seq<Pos>, q: Pos, splitters: set<Pos>) returns (i: nat)
    requires NextFrontier(beams, splitters).Some?
    requires q in NextFrontier(beams, splitters).value
    ensures i < |beams| && Moves(beams[i], q, splitters)
  {
    var init, b := beams[..|beams| - 1], beams[|beams| - 1];
    var v := NextFrontier(init, splitters).value;
    assert NextFrontier(beams, splitters) == PushMoves(v, b, splitters);
    PushMovesElements(v, b, q, splitters);
    if q in v {
      i := FrontierFrom(init, q, splitters);
      assert init[i] == beams[i];
    } else {
      i := |beams| - 1;
    }
  }

  /** The next frontier holds exactly the cells the beams continue from:
      `unique_push` only drops repeats. */
  lemma FrontierMoves(beams: seq<Pos>, splitters: set<Pos>)
    requires NextFrontier(beams, splitters).Some?
    ensures forall q :: q in NextFrontier(beams, splitters).value <==>
      exists i :: 0 <= i < |beams| && Moves(beams[i], q, splitters)
  {
    forall q
      ensures q in NextFrontier(beams, splitters).value <==> exists i :: 0 <= i < |beams| && Moves(beams[i], q, splitters)
    {
      if q in NextFrontier(beams, splitters).value {
        var i := FrontierFrom(beams, q, splitters);
      }
      if i :| 0 <= i < |beams| && Moves(beams[i], q, splitters) {
        MovesInFrontier(beams, i, q, splitters);
      }
    }
  }

  lemma PushMovesElements(v: seq<Pos>, b: Pos, q: Pos, splitters: set<Pos>)
    requires PushMoves(v, b, splitters).Some?
    ensures q in PushMoves(v, b, splitters).value <==> q in v || Moves(b, q, splitters)
  {
    if Below(b) in splitters {
      var l := (b.0 + 1, b.1 - 1);
      UniquePushElements(v, l, q);
      UniquePushElements(UniquePush(v, l), (b.0 + 1, b.1 + 1), q);
    } else {
      UniquePushElements(v, Below(b), q);
    }
  }

  /** The number of beams whose cell below is a splitter. */
  function SplitCount(beams: seq<Pos>, splitters: set<Pos>): (n: nat)
    ensures n <= |beams|
  {
    if beams == [] then 0
    else SplitCount(beams[..|beams| - 1], splitters) + if Below(beams[|beams| - 1]) in splitters then 1 else 0
  }

  /** One pass of the inner loop of `solve_part_1`: push the cells a beam
      at `b` continues from, and tell whether it met a splitter. */
  method PushBeam(v: seq<Pos>, b: Pos, splitters: set<Pos>) returns (w: Option<seq<Pos>>, split: bool)
    ensures w == PushMoves(v, b, splitters)
    ensures split <==> Below(b) in splitters
  {
    var (r, c) := b;
    var nr := r + 1;
    if (nr, c) in splitters {
      split := true;
      if c == 0 {
        return None, split;
      }
      var u := UniquePush(v, (nr, c - 1));
      w := Some(UniquePush(u, (nr, c + 1)));
    } else {
      split := false;
      w := Some(UniquePush(v, (nr, c)));
    }
  }

  /** The inner loop of `solve_part_1`: move every beam down one row,
      counting the beams that meet a splitter. */
  method Advance(beams: seq<Pos>, splitters: set<Pos>) returns (next: Option<seq<Pos>>, splits: nat)
    ensures next == NextFrontier(beams, splitters)
    ensures next.Some? ==> splits == SplitCount(beams, splitters)
  {
    var v: seq<Pos> := [];
    splits := 0;
    for i := 0 to |beams|
      invariant NextFrontier(beams[..i], splitters) == Some(v)
      invariant splits == SplitCount(beams[..i], splitters)
    {
      FrontierSnoc(beams, i, splitters);
      var w, split := PushBeam(v, beams[i], splitters);
      if split {
        splits := splits + 1;
      }
      if w.None? {
        BlockedStops(beams, i, splitters);
        return None, splits;
      }
      v := w.value;
    }
    assert beams[..|beams|] == beams;
    next := Some(v);
  }

  /** The split events of `steps` steps from the frontier `beams`. */
  function Splits(beams: seq<Pos>, splitters: set<Pos>, steps: nat): Option<nat>
    decreases steps
  {
    if steps == 0 then Some(0)
    else match NextFrontier(beams, splitters)
      case None => None
      case Some(next) => match Splits(next, splitters, steps - 1)
        case None => None
        case Some(n) => Some(SplitCount(beams, splitters) + n)
  }

  /** One step of part 1's loop: the splits counted so far plus those still
      to come stay the total. */
  lemma SplitsStep(total: Option<nat>, counted: nat, beams: seq<Pos>, splitters: set<Pos>, steps: nat, next: seq<Pos>, splits: nat)
    requires steps > 0 && NextFrontier(beams, splitters) == Some(next) && splits == SplitCount(beams, splitters)
    requires total == AddTo(counted, Splits(beams, splitters, steps))
    ensures total == AddTo(counted + splits, Splits(next, splitters, steps - 1))
  {
    SplitsUnfold(beams, splitters, steps, next);
  }

  lemma SplitsUnfold(beams: seq<Pos>, splitters: set<Pos>, steps: nat, next: seq<Pos>)
    requires steps > 0 && NextFrontier(beams, splitters) == Some(next)
    ensures Splits(beams, splitters, steps) == AddTo(SplitCount(beams, splitters), Splits(next, splitters, steps - 1))
  {
  }

  lemma SplitsBlocked(total: Option<nat>, counted: nat, beams: seq<Pos>, splitters: set<Pos>, steps: nat)
    requires steps > 0 && NextFrontier(beams, splitters).None?
    requires total == AddTo(counted, Splits(beams, splitters, steps))
    ensures total.None?
  {
  }

  /** The frontier after `steps` steps. */
  function FrontierAfter(beams: seq<Pos>, splitters: set<Pos>, steps: nat): Option<seq<Pos>>
    decreases steps
  {
    if steps == 0 then Some(beams)
    else match NextFrontier(beams, splitters)
      case None => None
      case Some(next) => FrontierAfter(next, splitters, steps - 1)
  }

  /** Each step moves every beam one row down: from a frontier in row `row`,
      `steps` steps lead to a frontier in row `row + steps`. */
  lemma {:induction false} FrontierRow(beams: seq<Pos>, splitters: set<Pos>, steps: nat, row: nat)
    requires forall i :: 0 <= i < |beams| ==> beams[i].0 == row
    requires FrontierAfter(beams, splitters, steps).Some?
    ensures forall q :: q in FrontierAfter(beams, splitters, steps).value ==> q.0 == row + steps
    decreases steps
  {
    if steps > 0 {
      var next := NextFrontier(beams, splitters).value;
      forall k | 0 <= k < |next|
        ensures next[k].0 == row + 1
      {
        var i := FrontierFrom(beams, next[k], splitters);
      }
      FrontierRow(next, splitters, steps - 1, row + 1);
    }
  }

  /** Splits are found exactly while the frontier can advance. */
  lemma {:induction false} SplitsDefined(beams: seq<Pos>, splitters: set<Pos>, steps: nat)
    ensures Splits(beams, splitters, steps).Some? <==> FrontierAfter(beams, splitters, steps).Some?
    decreases steps
  {
    if steps > 0 {
      match NextFrontier(beams, splitters)
      case None =>
      case Some(next) => SplitsDefined(next, splitters, steps - 1);
    }
  }

  /** Some beam descending from `b` within `steps` rows is blocked: where
      the source panics. */
  ghost predicate Jams(splitters: set<Pos>, b: Pos, steps: nat)
    decreases steps
  {
    steps > 0 &&
    (Blocked(b, splitters) ||
     if Below(b) in splitters then
       Jams(splitters, (b.0 + 1, b.1 - 1), steps - 1) || Jams(splitters, (b.0 + 1, b.1 + 1), steps - 1)
     else Jams(splitters, Below(b), steps - 1))
  }

  /** A jam one row further down is a jam from here. */
  lemma JamsMove(splitters: set<Pos>, b: Pos, q: Pos, steps: nat)
    requires steps > 0 && Moves(b, q, splitters) && Jams(splitters, q, steps - 1)
    ensures Jams(splitters, b, steps)
  {
  }

  /** A jam from an unblocked beam continues from one of its moves. */
  lemma JamsChild(splitters: set<Pos>, b: Pos, steps: nat) returns (q: Pos)
    requires Jams(splitters, b, steps) && !Blocked(b, splitters)
    ensures steps > 0 && Moves(b, q, splitters) && Jams(splitters, q, steps - 1)
  {
    if Below(b) in splitters {
      var l := (b.0 + 1, b.1 - 1);
      q := if Jams(splitters, l, steps - 1) then l else (b.0 + 1, b.1 + 1);
    } else {
      q := Below(b);
    }
  }

  /** A beam of the frontier that jams stops the frontier. */
  lemma {:induction false} JamStops(beams: seq<Pos>, i: nat, splitters: set<Pos>, steps: nat)
    requires i < |beams| && Jams(splitters, beams[i], steps)
    ensures FrontierAfter(beams, splitters, steps).None?
    decreases steps
  {
    if Blocked(beams[i], splitters) {
      BlockedStops(beams, i, splitters);
    } else if NextFrontier(beams, splitters).Some? {
      var q := JamsChild(splitters, beams[i], steps);
      var next := NextFrontier(beams, splitters).value;
      MovesInFrontier(beams, i, q, splitters);
      var j :| 0 <= j < |next| && next[j] == q;
      JamStops(next, j, splitters, steps - 1);
    }
  }

  /** A frontier that stops has a beam that jams. */
  lemma {:induction false} StopsJam(beams: seq<Pos>, splitters: set<Pos>, steps: nat) returns (i: nat)
    requires FrontierAfter(beams, splitters, steps).None?
    ensures i < |beams| && Jams(splitters, beams[i], steps)
    decreases steps
  {
    if NextFrontier(beams, splitters).None? {
      i := StopsBlocked(beams, splitters);
    } else {
      var next := NextFrontier(beams, splitters).value;
      var j := StopsJam(next, splitters, steps - 1);
      i := FrontierFrom(beams, next[j], splitters);
      JamsMove(splitters, beams[i], next[j], steps);
    }
  }

  /** Part 1 fails exactly when a beam from the start gets blocked. */
  lemma SplitsJam(splitters: set<Pos>, start: Pos, steps: nat)
    ensures Splits([start], splitters, steps).None? <==> Jams(splitters, start, steps)
  {
    SplitsDefined([start], splitters, steps);
    if Jams(splitters, start, steps) {
      JamStops([start], 0, splitters, steps);
    }
    if FrontierAfter([start], splitters, steps).None? {
      var i := StopsJam([start], splitters, steps);
    }
  }

  ghost function Pick(s: set<Pos>): (p: Pos)
    requires s != {}
    ensures p in s
  {
    var p :| p in s; p
  }

  /** The largest row among the splitters: what `last_splitter_row` returns. */
  ghost function MaxRow(splitters: set<Pos>): (m: nat)
    requires splitters != {}
    ensures exists p :: p in splitters && p.0 == m
    ensures forall q :: q in splitters ==> q.0 <= m
    decreases |splitters|
  {
    var p := Pick(splitters);
    var rest := splitters - {p};
    if rest == {} then
      assert forall q :: q in splitters && q != p ==> q in rest;
      p.0
    else
      var m := MaxRow(rest);
      if p.0 >= m then p.0 else m
  }

  /** `last_splitter_row`: the largest row of a splitter (the source unwraps
      the maximum, so there must be one). */
  method LastSplitterRow(splitters: set<Pos>) returns (row: nat)
    requires splitters != {}
    ensures row == MaxRow(splitters)
  {
    var rest := splitters;
    assert Pick(rest) in rest;
    var p :| p in rest;
    row := p.0;
    rest := rest - {p};
    while rest != {}
      invariant rest <= splitters
      invariant exists q :: q in splitters && q.0 == row
      invariant forall q :: q in splitters && q !in rest ==> q.0 <= row
      decreases |rest|
    {
      var q :| q in rest;
      if q.0 > row {
        row := q.0;
      }
      rest := rest - {q};
    }
  }

  /** The number of steps both parts run: from the start row to the last
      splitter row (none when the start lies below it). */
  ghost function StepCount(p: Puzzle): nat
    requires p.splitters != {}
  {
    var last := MaxRow(p.splitters);
    if last > p.start.0 then last - p.start.0 else 0
  }

  function AddTo(n: nat, r: Option<nat>): Option<nat>
  {
    if r.Some? then Some(n + r.value) else None
  }


  /** The body of the loop of `solve_part_1`: advance the frontier and add
      its split events to the count. */
  method CountStep(ghost total: Option<nat>, numSplits: nat, beams: seq<Pos>, splitters: set<Pos>, ghost steps: nat)
    returns (next: Option<seq<Pos>>, numSplits': nat)
    requires steps > 0 && total == AddTo(numSplits, Splits(beams, splitters, steps))
    ensures next == NextFrontier(beams, splitters)
    ensures next.None? ==> total.None?
    ensures next.Some? ==> numSplits' == numSplits + SplitCount(beams, splitters)
    ensures next.Some? ==> total == AddTo(numSplits', Splits(next.value, splitters, steps - 1))
  {
    var splits;
    next, splits := Advance(beams, splitters);
    if next.None? {
      SplitsBlocked(total, numSplits, beams, splitters, steps);
      return next, numSplits;
    }
    SplitsStep(total, numSplits, beams, splitters, steps, next.value, splits);
    numSplits' := numSplits + splits;
  }

  /** `solve_part_1`: advance the frontier from the start to the last
      splitter row and count every beam that met a splitter. */
  method SolvePart1(p: Puzzle) returns (r: Option<nat>)
    requires p.splitters != {}
    ensures r == Splits([p.start], p.splitters, StepCount(p))
    ensures r.None? <==> Jams(p.splitters, p.start, StepCount(p))
    ensures r.Some? && Spaced(p.splitters) ==> r.value == |HitFrom([p.start], p.splitters, StepCount(p))|
  {
    var last := LastSplitterRow(p.splitters);
    var steps := if last > p.start.0 then last - p.start.0 else 0;
    r := CountSplits(p.start, p.splitters, steps);
    SplitsJam(p.splitters, p.start, steps);
    if r.Some? && Spaced(p.splitters) {
      SplitsCountHits([p.start], p.splitters, steps);
    }
  }

  /** The loop of `solve_part_1`: `steps` times advance the frontier. */
  method CountSplits(start: Pos, splitters: set<Pos>, steps: nat) returns (r: Option<nat>)
    ensures r == Splits([start], splitters, steps)
  {
    ghost var total := Splits([start], splitters, steps);
    var numSplits := 0;
    var beams := [start];
    for i := 0 to steps
      invariant total == AddTo(numSplits, Splits(beams, splitters, steps - i))
    {
      var next;
      next, numSplits := CountStep(total, numSplits, beams, splitters, steps - i);
      if next.None? {
        return None;
      }
      beams := next.value;
    }
    r := Some(numSplits);
  }

  // ------------------------------------------------- what part 1 counts

  /** No two splitters stand side by side in a row. */
  predicate Spaced(splitters: set<Pos>)
  {
    forall s, t :: s in splitters && t in splitters && s.0 == t.0 ==> t.1 != s.1 + 1
  }

  /** A frontier in one row, columns strictly increasing. */
  predicate Ascending(v: seq<Pos>)
  {
    forall i, j :: 0 <= i < j < |v| ==> v[i].0 == v[j].0 && v[i].1 < v[j].1
  }

  lemma AscendingInit(v: seq<Pos>)
    requires v != [] && Ascending(v)
    ensures Ascending(v[..|v| - 1])
  {
    var init := v[..|v| - 1];
    forall i, j | 0 <= i < j < |init|
      ensures init[i].0 == init[j].0 && init[i].1 < init[j].1
    {
      assert init[i] == v[i] && init[j] == v[j];
    }
  }

  /** `unique_push` of a cell right of (or on) the last one keeps a frontier
      ascending. */
  lemma UniquePushAscending(v: seq<Pos>, pos: Pos)
    requires Ascending(v)
    requires v != [] ==> v[|v| - 1].0 == pos.0 && v[|v| - 1].1 <= pos.1
    ensures Ascending(UniquePush(v, pos))
  {
    var w := UniquePush(v, pos);
    if w != v {
      forall i, j | 0 <= i < j < |w|
        ensures w[i].0 == w[j].0 && w[i].1 < w[j].1
      {
        if j == |v| && i < |v| - 1 {
          assert v[i].0 == v[|v| - 1].0 && v[i].1 < v[|v| - 1].1;
        }
      }
    }
  }

  /** The last cell of the next frontier comes from the last beam: one row
      below it, at most one column to its right, and one column right only
      when that beam split. */
  lemma FrontierLast(beams: seq<Pos>, splitters: set<Pos>)
    requires NextFrontier(beams, splitters).Some?
    ensures beams == [] <==> NextFrontier(beams, splitters).value == []
    ensures beams != [] ==>
      var b, v := beams[|beams| - 1], NextFrontier(beams, splitters).value;
      && v[|v| - 1].0 == b.0 + 1 && v[|v| - 1].1 <= b.1 + 1
      && (v[|v| - 1].1 == b.1 + 1 ==> Below(b) in splitters)
  {
    if beams != [] {
      var init, b := beams[..|beams| - 1], beams[|beams| - 1];
      var v := NextFrontier(init, splitters).value;
      var w := PushMoves(v, b, splitters).value;
      assert NextFrontier(beams, splitters) == Some(w);
      PushMovesLast(v, b, splitters);
    }
  }

  lemma PushMovesLast(v: seq<Pos>, b: Pos, splitters: set<Pos>)
    requires PushMoves(v, b, splitters).Some?
    ensures var w := PushMoves(v, b, splitters).value;
      && w != [] && w[|w| - 1].0 == b.0 + 1 && w[|w| - 1].1 <= b.1 + 1
      && (w[|w| - 1].1 == b.1 + 1 ==> Below(b) in splitters)
  {
  }

  /** With splitters spaced apart, the step keeps the frontier ascending. */
  lemma {:induction false} FrontierAscending(beams: seq<Pos>, splitters: set<Pos>)
    requires Spaced(splitters) && Ascending(beams)
    requires NextFrontier(beams, splitters).Some?
    ensures Ascending(NextFrontier(beams, splitters).value)
  {
    if beams != [] {
      var init, b := beams[..|beams| - 1], beams[|beams| - 1];
      var v := NextFrontier(init, splitters).value;
      var w := PushMoves(v, b, splitters).value;
      assert NextFrontier(beams, splitters) == Some(w);
      AscendingInit(beams);
      FrontierAscending(init, splitters);
      FrontierLast(init, splitters);
      if init != [] {
        var a := init[|init| - 1];
        assert a == beams[|beams| - 2];
        assert a.0 == b.0 && a.1 < b.1;
      }
      PushMovesAscending(v, b, splitters);
    }
  }

  /** One beam's pushes keep the frontier ascending, when the frontier ends
      left of the beam's column, or on it only beside a splitter down-left. */
  lemma PushMovesAscending(v: seq<Pos>, b: Pos, splitters: set<Pos>)
    requires Spaced(splitters) && Ascending(v) && PushMoves(v, b, splitters).Some?
    requires v != [] ==> v[|v| - 1].0 == b.0 + 1 && v[|v| - 1].1 <= b.1
    requires v != [] && v[|v| - 1].1 == b.1 ==> (b.0 + 1, b.1 - 1) in splitters
    ensures Ascending(PushMoves(v, b, splitters).value)
  {
    if Below(b) in splitters {
      PushSplitLast(v, b, splitters);
      PushSplitAscending(v, b);
      var w := UniquePush(UniquePush(v, (b.0 + 1, b.1 - 1)), (b.0 + 1, b.1 + 1));
      assert PushMoves(v, b, splitters) == Some(w);
    } else {
      UniquePushAscending(v, Below(b));
      assert PushMoves(v, b, splitters) == Some(UniquePush(v, Below(b)));
    }
  }

  /** Splitters spaced apart: a frontier ending on the column of a split
      beam would need a splitter beside the one below it. */
  lemma PushSplitLast(v: seq<Pos>, b: Pos, splitters: set<Pos>)
    requires Spaced(splitters) && Below(b) in splitters
    requires v != [] ==> v[|v| - 1].0 == b.0 + 1 && v[|v| - 1].1 <= b.1
    requires v != [] && v[|v| - 1].1 == b.1 ==> (b.0 + 1, b.1 - 1) in splitters
    ensures v != [] ==> v[|v| - 1].1 + 1 <= b.1
  {
  }

  /** The two pushes of a split beam, when the frontier ends left of the
      cell down-left of it. */
  lemma PushSplitAscending(v: seq<Pos>, b: Pos)
    requires Ascending(v) && b.1 > 0
    requires v != [] ==> v[|v| - 1].0 == b.0 + 1 && v[|v| - 1].1 + 1 <= b.1
    ensures var w := UniquePush(UniquePush(v, (b.0 + 1, b.1 - 1)), (b.0 + 1, b.1 + 1));
      Ascending(w) && w[|w| - 1] == (b.0 + 1, b.1 + 1)
  {
    var left := (b.0 + 1, b.1 - 1);
    var u := UniquePush(v, left);
    UniquePushAscending(v, left);
    UniquePushAscending(u, (b.0 + 1, b.1 + 1));
  }

  /** The splitters right below the beams. */
  ghost function SplitSet(beams: seq<Pos>, splitters: set<Pos>): set<Pos>
  {
    set b | b in beams && Below(b) in splitters :: Below(b)
  }

  /** Over a frontier without repeats, the beams that meet a splitter meet
      as many different splitters. */
  lemma {:induction false} SplitCountDistinct(beams: seq<Pos>, splitters: set<Pos>)
    requires Ascending(beams)
    ensures SplitCount(beams, splitters) == |SplitSet(beams, splitters)|
  {
    if beams == [] {
      assert SplitSet(beams, splitters) == {};
    } else {
      var init, b := beams[..|beams| - 1], beams[|beams| - 1];
      AscendingInit(beams);
      SplitCountDistinct(init, splitters);
      SplitSetSnoc(beams, splitters);
    }
  }

  /** The last beam adds its splitter, which no earlier beam has below it. */
  lemma SplitSetSnoc(beams: seq<Pos>, splitters: set<Pos>)
    requires beams != [] && Ascending(beams)
    ensures var init, b := beams[..|beams| - 1], beams[|beams| - 1];
      |SplitSet(beams, splitters)| == |SplitSet(init, splitters)| + if Below(b) in splitters then 1 else 0
  {
    var init, b := beams[..|beams| - 1], beams[|beams| - 1];
    SnocMembers(beams);
    LastNotEarlier(beams);
    if Below(b) in splitters {
      assert SplitSet(beams, splitters) == SplitSet(init, splitters) + {Below(b)};
    } else {
      assert SplitSet(beams, splitters) == SplitSet(init, splitters);
    }
  }

  lemma SnocMembers(v: seq<Pos>)
    requires v != []
    ensures forall x :: x in v <==> x in v[..|v| - 1] || x == v[|v| - 1]
  {
    assert v == v[..|v| - 1] + [v[|v| - 1]];
  }

  /** In an ascending frontier no earlier beam stands on the last one's
      cell, nor has the same cell below it. */
  lemma LastNotEarlier(v: seq<Pos>)
    requires v != [] && Ascending(v)
    ensures forall x :: x in v[..|v| - 1] ==> Below(x) != Below(v[|v| - 1])
  {
    forall x | x in v[..|v| - 1]
      ensures Below(x) != Below(v[|v| - 1])
    {
      var i :| 0 <= i < |v| - 1 && v[..|v| - 1][i] == x;
      assert v[i] == x;
    }
  }

  /** A beam at `b` comes to the cell `q` in `k` steps, continuing from
      both cells beside every splitter it meets. */
  ghost predicate Reaches(splitters: set<Pos>, b: Pos, q: Pos, k: nat)
    decreases k
  {
    if k == 0 then q == b else exists m :: Moves(b, m, splitters) && Reaches(splitters, m, q, k - 1)
  }

  /** `k` steps go `k` rows down. */
  lemma {:induction false} ReachesRow(splitters: set<Pos>, b: Pos, q: Pos, k: nat)
    requires Reaches(splitters, b, q, k)
    ensures q.0 == b.0 + k
    decreases k
  {
    if k > 0 {
      var m :| Moves(b, m, splitters) && Reaches(splitters, m, q, k - 1);
      ReachesRow(splitters, m, q, k - 1);
    }
  }

  /** The splitters some beam from `beams` meets within `steps` steps: those
      right below a cell it reaches in fewer than `steps` steps. */
  ghost function HitFrom(beams: seq<Pos>, splitters: set<Pos>, steps: nat): set<Pos>
  {
    set s | s in splitters && exists i, k: nat, b :: 0 <= i < |beams| && k < steps && Reaches(splitters, beams[i], b, k) && Below(b) == s
  }

  /** The splitters met from `beams` are those right below them and those
      met from the next frontier, which lie further down. */
  lemma HitStep(beams: seq<Pos>, splitters: set<Pos>, steps: nat)
    requires steps > 0 && NextFrontier(beams, splitters).Some?
    requires Ascending(beams)
    ensures var next := NextFrontier(beams, splitters).value;
      && HitFrom(beams, splitters, steps) == SplitSet(beams, splitters) + HitFrom(next, splitters, steps - 1)
      && SplitSet(beams, splitters) !! HitFrom(next, splitters, steps - 1)
  {
    var next := NextFrontier(beams, splitters).value;
    var here, later := SplitSet(beams, splitters), HitFrom(next, splitters, steps - 1);
    forall s | s in HitFrom(beams, splitters, steps)
      ensures s in here + later
    {
      var i, k: nat, b :| 0 <= i < |beams| && k < steps && Reaches(splitters, beams[i], b, k) && Below(b) == s;
      if k == 0 {
        assert beams[i] in beams;
      } else {
        var m :| Moves(beams[i], m, splitters) && Reaches(splitters, m, b, k - 1);
        MovesInFrontier(beams, i, m, splitters);
        var j :| 0 <= j < |next| && next[j] == m;
        assert Reaches(splitters, next[j], b, k - 1);
      }
    }
    forall s | s in here
      ensures s in HitFrom(beams, splitters, steps)
    {
      var b :| b in beams && Below(b) in splitters && Below(b) == s;
      var i :| 0 <= i < |beams| && beams[i] == b;
      assert Reaches(splitters, beams[i], b, 0);
    }
    forall s | s in later
      ensures s in HitFrom(beams, splitters, steps)
    {
      var j, k: nat, b :| 0 <= j < |next| && k < steps - 1 && Reaches(splitters, next[j], b, k) && Below(b) == s;
      var i := FrontierFrom(beams, next[j], splitters);
      assert Reaches(splitters, beams[i], b, k + 1);
    }
    if beams != [] {
      var row := beams[0].0;
        forall s | s in here
        ensures s.0 == row + 1
      {
        var b :| b in beams && Below(b) in splitters && Below(b) == s;
        var i :| 0 <= i < |beams| && beams[i] == b;
        assert i > 0 ==> beams[0].0 == beams[i].0;
      }
      forall s | s in later
        ensures s.0 >= row + 2
      {
        var j, k: nat, c :| 0 <= j < |next| && k < steps - 1 && Reaches(splitters, next[j], c, k) && Below(c) == s;
        var i := FrontierFrom(beams, next[j], splitters);
        ReachesRow(splitters, next[j], c, k);
        assert i > 0 ==> beams[0].0 == beams[i].0;
      }
    } else {
      assert here == {};
    }
  }

  /** With splitters spaced apart, part 1 counts each splitter a beam meets
      once: the unique split events the source promises. */
  lemma {:induction false} SplitsCountHits(beams: seq<Pos>, splitters: set<Pos>, steps: nat)
    requires Spaced(splitters) && Ascending(beams)
    requires Splits(beams, splitters, steps).Some?
    ensures Splits(beams, splitters, steps).value == |HitFrom(beams, splitters, steps)|
    decreases steps
  {
    if steps == 0 {
      assert HitFrom(beams, splitters, 0) == {};
    } else {
      var next := NextFrontier(beams, splitters).value;
      FrontierAscending(beams, splitters);
      SplitsCountHits(next, splitters, steps - 1);
      SplitCountDistinct(beams, splitters);
      HitStep(beams, splitters, steps);
      DisjointUnionSize(SplitSet(beams, splitters), HitFrom(next, splitters, steps - 1));
    }
  }

  // ---------------------------------------------------------------- part 2

  /** The number of timelines a particle at `b` has after `steps` more rows:
      it splits into both neighbours below at a splitter. (A left branch
      from column 0 is counted as none; the source panics there.) */
  function Timelines(splitters: set<Pos>, b: Pos, steps: nat): (n: nat)
    ensures n >= 1
    decreases steps
  {
    if steps == 0 then 1
    else if Below(b) in splitters then
      (if b.1 == 0 then 0 else Timelines(splitters, (b.0 + 1, b.1 - 1), steps - 1))
        + Timelines(splitters, (b.0 + 1, b.1 + 1), steps - 1)
    else Timelines(splitters, Below(b), steps - 1)
  }

  /** The sum of `m[k] * f(k)` over the keys of `m`. */
  ghost function Weighted(m: map<Pos, nat>, f: Pos -> nat): nat
    decreases |m.Keys|
  {
    if m == map[] then 0
    else
      var k :| k in m;
      m[k] * f(k) + Weighted(m - {k}, f)
  }

  lemma {:induction false} WeightedRemove(m: map<Pos, nat>, k: Pos, f: Pos -> nat)
    requires k in m
    ensures Weighted(m, f) == m[k] * f(k) + Weighted(m - {k}, f)
    decreases |m.Keys|
  {
    var j :| j in m && Weighted(m, f) == m[j] * f(j) + Weighted(m - {j}, f);
    if j != k {
      var both := m - {j} - {k};
      assert m - {j} - {k} == m - {k} - {j};
      WeightedRemove(m - {j}, k, f);
      WeightedRemove(m - {k}, j, f);
    }
  }

  function Get(m: map<Pos, nat>, q: Pos): nat
  {
    if q in m then m[q] else 0
  }

  /** `*m.entry(q).or_insert(0) += count`. */
  function Deposit(m: map<Pos, nat>, q: Pos, count: nat): (m': map<Pos, nat>)
    ensures m'.Keys == m.Keys + {q}
  {
    m[q := Get(m, q) + count]
  }

  /** Depositing `count` at `q` adds `count * f(q)`. */
  lemma WeightedAdd(m: map<Pos, nat>, q: Pos, count: nat, f: Pos -> nat)
    ensures Weighted(Deposit(m, q, count), f) == Weighted(m, f) + count * f(q)
  {
    var m' := Deposit(m, q, count);
    WeightedRemove(m', q, f);
    assert m' - {q} == m - {q};
    if q in m {
      WeightedRemove(m, q, f);
    } else {
      assert m - {q} == m;
    }
    assert (Get(m, q) + count) * f(q) == Get(m, q) * f(q) + count * f(q);
  }

  lemma {:induction false} WeightedSameWeights(m: map<Pos, nat>, f: Pos -> nat, g: Pos -> nat)
    requires forall x :: f(x) == g(x)
    ensures Weighted(m, f) == Weighted(m, g)
    decreases |m.Keys|
  {
    if m != map[] {
      var k :| k in m;
      WeightedRemove(m, k, f);
      WeightedRemove(m, k, g);
      WeightedSameWeights(m - {k}, f, g);
    }
  }

  function One(x: Pos): nat { 1 }

  /** The number of timelines held in a map of counts. */
  ghost function Total(m: map<Pos, nat>): nat
  {
    Weighted(m, One)
  }

  ghost function AboveSplitter(splitters: set<Pos>): Pos -> nat
  {
    x => if Below(x) in splitters then 1 else 0
  }

  /** The number of timelines sitting above a splitter. */
  ghost function SplitMass(m: map<Pos, nat>, splitters: set<Pos>): nat
  {
    Weighted(m, AboveSplitter(splitters))
  }

  ghost function Remaining(splitters: set<Pos>, steps: nat): Pos -> nat
  {
    x => Timelines(splitters, x, steps)
  }

  /** Where the count at `b` goes: to both cells below a splitter, or to the
      cell below. */
  function Move(m: map<Pos, nat>, b: Pos, count: nat, splitters: set<Pos>): map<Pos, nat>
    requires !Blocked(b, splitters)
  {
    if Below(b) in splitters then Deposit(Deposit(m, (b.0 + 1, b.1 - 1), count), (b.0 + 1, b.1 + 1), count)
    else Deposit(m, Below(b), count)
  }

  /** The weight of the cells a count at `b` moves to. */
  function Passed(b: Pos, f: Pos -> nat, splitters: set<Pos>): nat
    requires !Blocked(b, splitters)
  {
    if Below(b) in splitters then f((b.0 + 1, b.1 - 1)) + f((b.0 + 1, b.1 + 1)) else f(Below(b))
  }

  lemma Distribute(a: nat, b: nat, c: nat)
    ensures a * (b + c) == a * b + a * c
  {
  }

  /** Depositing `count` at `l` and then at `r` adds `count * (f(l) + f(r))`. */
  lemma DepositTwice(m: map<Pos, nat>, l: Pos, r: Pos, count: nat, f: Pos -> nat)
    ensures Weighted(Deposit(Deposit(m, l, count), r, count), f) == Weighted(m, f) + count * (f(l) + f(r))
  {
    var fl, fr := f(l), f(r);
    WeightedAdd(m, l, count, f);
    WeightedAdd(Deposit(m, l, count), r, count, f);
    Distribute(count, fl, fr);
  }

  lemma MoveWeighted(m: map<Pos, nat>, b: Pos, count: nat, splitters: set<Pos>, f: Pos -> nat)
    requires !Blocked(b, splitters)
    ensures Weighted(Move(m, b, count, splitters), f) == Weighted(m, f) + count * Passed(b, f, splitters)
  {
    if Below(b) in splitters {
      var l, r := (b.0 + 1, b.1 - 1), (b.0 + 1, b.1 + 1);
      DepositTwice(m, l, r, count, f);
      assert Passed(b, f, splitters) == f(l) + f(r);
    } else {
      WeightedAdd(m, Below(b), count, f);
    }
  }

  /** What the inner loop of part 2 knows about the counts `n` built from
      the already moved counts `done`. */
  ghost predicate SpreadInvariant(n: map<Pos, nat>, done: map<Pos, nat>, splitters: set<Pos>, steps: nat)
    requires steps > 0
  {
    && Total(n) == Total(done) + SplitMass(done, splitters)
    && Weighted(n, Remaining(splitters, steps - 1)) == Weighted(done, Remaining(splitters, steps))
    && (forall q :: q in n ==> exists d :: d in done && Moves(d, q, splitters))
    && (forall d :: d in done ==> !Blocked(d, splitters))
    && (forall d, q :: d in done && Moves(d, q, splitters) ==> q in n)
  }

  /** Moving one more count keeps the invariant. */
  lemma SpreadStep(n: map<Pos, nat>, done: map<Pos, nat>, b: Pos, count: nat, splitters: set<Pos>, steps: nat)
    requires steps > 0 && b !in done && !Blocked(b, splitters)
    requires SpreadInvariant(n, done, splitters, steps)
    ensures SpreadInvariant(Move(n, b, count, splitters), done[b := count], splitters, steps)
  {
    assert done[b := count] - {b} == done;
    StepTotal(n, done, b, count, splitters);
    StepRemaining(n, done, b, count, splitters, steps);
    StepMoves(n, done, b, count, splitters);
  }

  lemma StepTotal(n: map<Pos, nat>, done: map<Pos, nat>, b: Pos, count: nat, splitters: set<Pos>)
    requires done[b := count] - {b} == done && !Blocked(b, splitters)
    requires Total(n) == Total(done) + SplitMass(done, splitters)
    ensures Total(Move(n, b, count, splitters)) == Total(done[b := count]) + SplitMass(done[b := count], splitters)
  {
    var above := AboveSplitter(splitters);
    WeightedRemove(done[b := count], b, One);
    WeightedRemove(done[b := count], b, above);
    MoveWeighted(n, b, count, splitters, One);
    assert Passed(b, One, splitters) == 1 + above(b);
    Distribute(count, 1, above(b));
  }

  lemma StepRemaining(n: map<Pos, nat>, done: map<Pos, nat>, b: Pos, count: nat, splitters: set<Pos>, steps: nat)
    requires done[b := count] - {b} == done && !Blocked(b, splitters) && steps > 0
    requires Weighted(n, Remaining(splitters, steps - 1)) == Weighted(done, Remaining(splitters, steps))
    ensures Weighted(Move(n, b, count, splitters), Remaining(splitters, steps - 1))
      == Weighted(done[b := count], Remaining(splitters, steps))
  {
    WeightedRemove(done[b := count], b, Remaining(splitters, steps));
    MoveWeighted(n, b, count, splitters, Remaining(splitters, steps - 1));
    assert Passed(b, Remaining(splitters, steps - 1), splitters) == Remaining(splitters, steps)(b);
  }

  lemma StepMoves(n: map<Pos, nat>, done: map<Pos, nat>, b: Pos, count: nat, splitters: set<Pos>)
    requires !Blocked(b, splitters)
    requires forall q :: q in n ==> exists d :: d in done && Moves(d, q, splitters)
    requires forall d, q :: d in done && Moves(d, q, splitters) ==> q in n
    ensures forall q :: q in Move(n, b, count, splitters) ==> exists d :: d in done[b := count] && Moves(d, q, splitters)
    ensures forall d, q :: d in done[b := count] && Moves(d, q, splitters) ==> q in Move(n, b, count, splitters)
  {
    StepTargets(n, done, b, count, splitters);
    var n' := Move(n, b, count, splitters);
    forall q | q in n'
      ensures exists d :: d in done[b := count] && Moves(d, q, splitters)
    {
      if q !in n {
        assert Moves(b, q, splitters);
      } else {
        var d :| d in done && Moves(d, q, splitters);
        assert d in done[b := count];
      }
    }
  }

  /** After moving `b`, every move of a moved key has a count. */
  lemma StepTargets(n: map<Pos, nat>, done: map<Pos, nat>, b: Pos, count: nat, splitters: set<Pos>)
    requires !Blocked(b, splitters)
    requires forall d, q :: d in done && Moves(d, q, splitters) ==> q in n
    ensures forall d, q :: d in done[b := count] && Moves(d, q, splitters) ==> q in Move(n, b, count, splitters)
  {
    var n' := Move(n, b, count, splitters);
    assert n.Keys <= n'.Keys;
    forall q | Moves(b, q, splitters)
      ensures q in n'
    {
    }
  }

  /** Moving the count of one more key of `beams` keeps the invariant. */
  lemma SpreadLoopStep(n: map<Pos, nat>, beams: map<Pos, nat>, rest: set<Pos>, b: Pos, splitters: set<Pos>, steps: nat)
    requires steps > 0 && rest <= beams.Keys && b in rest && !Blocked(b, splitters)
    requires SpreadInvariant(n, beams - rest, splitters, steps)
    ensures SpreadInvariant(Move(n, b, beams[b], splitters), beams - (rest - {b}), splitters, steps)
  {
    RestStep(beams, rest, b);
    SpreadStep(n, beams - rest, b, beams[b], splitters, steps);
  }

  lemma RestStep(beams: map<Pos, nat>, rest: set<Pos>, b: Pos)
    requires rest <= beams.Keys && b in rest
    ensures beams - (rest - {b}) == (beams - rest)[b := beams[b]] && b !in beams - rest
  {
  }

  /** Once every key has moved, the invariant is what `Spread` promises. */
  lemma SpreadFinal(n: map<Pos, nat>, beams: map<Pos, nat>, splitters: set<Pos>, steps: nat)
    requires steps > 0 && SpreadInvariant(n, beams - {}, splitters, steps)
    ensures Total(n) == Total(beams) + SplitMass(beams, splitters)
    ensures Weighted(n, Remaining(splitters, steps - 1)) == Weighted(beams, Remaining(splitters, steps))
    ensures forall q :: q in n ==> exists b :: b in beams && Moves(b, q, splitters)
    ensures forall b :: b in beams ==> !Blocked(b, splitters)
    ensures forall b, q :: b in beams && Moves(b, q, splitters) ==> q in n
  {
    assert beams - {} == beams;
  }

  /** The body of the inner loop of `solve_part_2`: add the count at `b` to
      the cells it moves to. `None` where the source panics. */
  method MoveCount(n: map<Pos, nat>, b: Pos, count: nat, splitters: set<Pos>) returns (n': Option<map<Pos, nat>>)
    ensures n'.None? <==> Blocked(b, splitters)
    ensures n'.Some? ==> n'.value == Move(n, b, count, splitters)
  {
    var (r, c) := b;
    var nr := r + 1;
    if (nr, c) in splitters {
      if c == 0 {
        return None;
      }
      var m := Deposit(n, (nr, c - 1), count);
      m := Deposit(m, (nr, c + 1), count);
      n' := Some(m);
    } else {
      n' := Some(Deposit(n, (nr, c), count));
    }
  }

  /** The inner loop of `solve_part_2`: move every count down one row,
      adding it to both cells below a splitter. The total grows by exactly
      the counts above a splitter, and the timelines still to come are
      preserved. `None` where the source panics. */
  method Spread(beams: map<Pos, nat>, splitters: set<Pos>, ghost steps: nat) returns (next: Option<map<Pos, nat>>)
    requires steps > 0
    ensures next.None? ==> exists b :: b in beams && Blocked(b, splitters)
    ensures next.Some? ==> Total(next.value) == Total(beams) + SplitMass(beams, splitters)
    ensures next.Some? ==> Weighted(next.value, Remaining(splitters, steps - 1)) == Weighted(beams, Remaining(splitters, steps))
    ensures next.Some? ==> forall q :: q in next.value ==> exists b :: b in beams && Moves(b, q, splitters)
    ensures next.Some? ==> forall b :: b in beams ==> !Blocked(b, splitters)
    ensures next.Some? ==> forall b, q :: b in beams && Moves(b, q, splitters) ==> q in next.value
  {
    var n: map<Pos, nat> := map[];
    var rest := beams.Keys;
    assert beams - rest == map[];
    while rest != {}
      invariant rest <= beams.Keys
      invariant SpreadInvariant(n, beams - rest, splitters, steps)
      decreases |rest|
    {
      var b :| b in rest;
      var count := beams[b];
      var moved := MoveCount(n, b, count, splitters);
      if moved.None? {
        return None;
      }
      SpreadLoopStep(n, beams, rest, b, splitters, steps);
      n := moved.value;
      rest := rest - {b};
    }
    SpreadFinal(n, beams, splitters, steps);
    next := Some(n);
  }

  /** Some key of a map of counts jams within `steps` rows. */
  ghost predicate AnyJams(keys: set<Pos>, splitters: set<Pos>, steps: nat)
  {
    exists b :: b in keys && Jams(splitters, b, steps)
  }

  /** One spread step keeps the question whether a particle gets blocked:
      the new keys are exactly the cells the old ones move to. */
  lemma SpreadJams(keys: set<Pos>, next: set<Pos>, splitters: set<Pos>, steps: nat)
    requires steps > 0
    requires forall b :: b in keys ==> !Blocked(b, splitters)
    requires forall q :: q in next ==> exists b :: b in keys && Moves(b, q, splitters)
    requires forall b, q :: b in keys && Moves(b, q, splitters) ==> q in next
    ensures AnyJams(next, splitters, steps - 1) <==> AnyJams(keys, splitters, steps)
  {
    if AnyJams(next, splitters, steps - 1) {
      var q :| q in next && Jams(splitters, q, steps - 1);
      var b :| b in keys && Moves(b, q, splitters);
      JamsMove(splitters, b, q, steps);
    }
    if AnyJams(keys, splitters, steps) {
      var b :| b in keys && Jams(splitters, b, steps);
      var q := JamsChild(splitters, b, steps);
      assert q in next;
    }
  }

  /** What the loop of `solve_part_2` keeps with `k` rows to go: the counts
      weighted by the timelines still to come give those of the start, and
      some counted particle gets blocked exactly when one from the start
      does. */
  ghost predicate CarryState(beams: map<Pos, nat>, splitters: set<Pos>, k: nat, start: Pos, steps: nat)
  {
    && Weighted(beams, Remaining(splitters, k)) == Timelines(splitters, start, steps)
    && (AnyJams(beams.Keys, splitters, k) <==> Jams(splitters, start, steps))
  }

  lemma CarryStart(splitters: set<Pos>, start: Pos, steps: nat)
    ensures CarryState(map[start := 1], splitters, steps, start, steps)
  {
    var beams: map<Pos, nat> := map[start := 1];
    WeightedRemove(beams, start, Remaining(splitters, steps));
    assert beams - {start} == map[];
    assert beams.Keys == {start};
  }

  /** One pass of the loop of `solve_part_2`. */
  method CarryStep(beams: map<Pos, nat>, splitters: set<Pos>, k: nat, ghost start: Pos, ghost steps: nat)
    returns (next: Option<map<Pos, nat>>)
    requires k > 0 && CarryState(beams, splitters, k, start, steps)
    ensures next.None? ==> Jams(splitters, start, steps)
    ensures next.Some? ==> CarryState(next.value, splitters, k - 1, start, steps)
  {
    next := Spread(beams, splitters, k);
    if next.None? {
      var b :| b in beams && Blocked(b, splitters);
      assert Jams(splitters, b, k);
    } else {
      SpreadJams(beams.Keys, next.value.Keys, splitters, k);
    }
  }

  /** `beams.values().sum()`. */
  method SumCounts(m: map<Pos, nat>) returns (s: nat)
    ensures s == Total(m)
  {
    s := 0;
    var rest := m;
    while rest != map[]
      invariant s + Total(rest) == Total(m)
      decreases |rest.Keys|
    {
      var k :| k in rest;
      WeightedRemove(rest, k, One);
      s := s + rest[k];
      rest := rest - {k};
    }
  }

  /** `solve_part_2`: carry the timeline counts from the start to the last
      splitter row and sum them. The result is the number of timelines of a
      particle started at `S`, so at least one. */
  method SolvePart2(p: Puzzle) returns (r: Option<nat>)
    requires p.splitters != {}
    ensures r.Some? ==> r.value == Timelines(p.splitters, p.start, StepCount(p))
    ensures r.Some? ==> r.value >= 1
    ensures r.None? <==> Jams(p.splitters, p.start, StepCount(p))
  {
    var last := LastSplitterRow(p.splitters);
    var steps := if last > p.start.0 then last - p.start.0 else 0;
    r := CountTimelines(p.start, p.splitters, steps);
  }

  /** The loop of `solve_part_2`: `steps` times spread the counts, then sum
      them. */
  method CountTimelines(start: Pos, splitters: set<Pos>, steps: nat) returns (r: Option<nat>)
    ensures r.Some? ==> r.value == Timelines(splitters, start, steps)
    ensures r.None? <==> Jams(splitters, start, steps)
  {
    var beams: map<Pos, nat> := map[start := 1];
    CarryStart(splitters, start, steps);
    for i := 0 to steps
      invariant CarryState(beams, splitters, steps - i, start, steps)
    {
      var next := CarryStep(beams, splitters, steps - i, start, steps);
      if next.None? {
        return None;
      }
      beams := next.value;
    }
    assert !AnyJams(beams.Keys, splitters, 0);
    WeightedSameWeights(beams, Remaining(splitters, 0), One);
    var total := SumCounts(beams);
    r := Some(total);
  }

  // ---------------------------------------------------------------- parsing

  /** The rows of the input as `create` reads them: the lines of the trimmed
      input, each trimmed. */
  function Rows(input: string): (rows: seq<string>)
    ensures |rows| == |Lines(Trim(input))|
  {
    var lines := Lines(Trim(input));
    seq(|lines|, i requires 0 <= i < |lines| => Trim(lines[i]))
  }

  predicate HasCell(rows: seq<string>, p: Pos, ch: char)
  {
    p.0 < |rows| && p.1 < |rows[p.0]| && rows[p.0][p.1] == ch
  }

  /** `p` comes before (row, col) in row-major order. */
  predicate Before(p: Pos, row: nat, col: nat)
  {
    p.0 < row || (p.0 == row && p.1 < col)
  }

  /** The splitter cells before (row, col) in row-major order. */
  ghost function SplittersBefore(rows: seq<string>, row: nat, col: nat): set<Pos>
  {
    set r, c | 0 <= r < |rows| && 0 <= c < |rows[r]| && Before((r, c), row, col) && rows[r][c] == '^' :: (r, c)
  }

  /** What `create` knows after reading every cell before (row, col): the
      splitters seen so far, and the last `S` seen so far. */
  ghost predicate ScanState(rows: seq<string>, row: nat, col: nat, start: Option<Pos>, splitters: set<Pos>)
  {
    && splitters == SplittersBefore(rows, row, col)
    && (start.None? ==> forall p :: HasCell(rows, p, 'S') ==> !Before(p, row, col))
    && (start.Some? ==> HasCell(rows, start.value, 'S') && Before(start.value, row, col))
    && (start.Some? ==> forall p :: HasCell(rows, p, 'S') && Before(p, row, col) ==> p == start.value || Before(p, start.value.0, start.value.1))
  }

  /** `Day::create`: the splitters are the `^` cells and the start is the
      last `S` cell in reading order; `None` where the source panics for
      want of an `S`. */
  method Create(input: string) returns (r: Option<Puzzle>)
    ensures r.None? <==> forall p :: !HasCell(Rows(input), p, 'S')
    ensures r.Some? ==> r.value.splitters == SplittersBefore(Rows(input), |Rows(input)|, 0)
    ensures r.Some? ==> HasCell(Rows(input), r.value.start, 'S')
    ensures r.Some? ==> forall p :: HasCell(Rows(input), p, 'S') ==> p == r.value.start || Before(p, r.value.start.0, r.value.start.1)
  {
    var rows := Rows(input);
    var start: Option<Pos> := None;
    var splitters: set<Pos> := {};
    for row := 0 to |rows|
      invariant ScanState(rows, row, 0, start, splitters)
    {
      var line := rows[row];
      for col := 0 to |line|
        invariant ScanState(rows, row, col, start, splitters)
      {
        ghost var start0, splitters0 := start, splitters;
        var cell: Pos := (row, col);
        match line[col] {
          case 'S' => start := Some(cell);
          case '^' => splitters := splitters + {cell};
          case _ =>
        }
        ScanCell(rows, row, col, start0, splitters0, start, splitters);
      }
      ScanRowEnd(rows, row, start, splitters);
    }
    ScanDone(rows, start, splitters);
    if start.None? {
      return None;
    }
    r := Some(Puzzle(start.value, splitters));
  }

  /** Reading the cell at (row, col) keeps the scan state. */
  lemma ScanCell(rows: seq<string>, row: nat, col: nat, start0: Option<Pos>, splitters0: set<Pos>, start: Option<Pos>, splitters: set<Pos>)
    requires row < |rows| && col < |rows[row]|
    requires ScanState(rows, row, col, start0, splitters0)
    requires start == if rows[row][col] == 'S' then Some((row, col)) else start0
    requires splitters == if rows[row][col] == '^' then splitters0 + {(row, col)} else splitters0
    ensures ScanState(rows, row, col + 1, start, splitters)
  {
    SplittersNext(rows, row, col);
    forall p | HasCell(rows, p, 'S') && Before(p, row, col + 1)
      ensures p == start.value || Before(p, start.value.0, start.value.1)
    {
      if p != (row, col) {
        assert Before(p, row, col);
      }
    }
  }

  /** The end of a row is the start of the next. */
  lemma ScanRowEnd(rows: seq<string>, row: nat, start: Option<Pos>, splitters: set<Pos>)
    requires row < |rows|
    requires ScanState(rows, row, |rows[row]|, start, splitters)
    ensures ScanState(rows, row + 1, 0, start, splitters)
  {
    SplittersRowEnd(rows, row);
    forall p | HasCell(rows, p, 'S') && Before(p, row + 1, 0)
      ensures Before(p, row, |rows[row]|)
    {
    }
  }

  /** After the last row every cell has been read. */
  lemma ScanDone(rows: seq<string>, start: Option<Pos>, splitters: set<Pos>)
    requires ScanState(rows, |rows|, 0, start, splitters)
    ensures start.None? <==> forall p :: !HasCell(rows, p, 'S')
    ensures start.Some? ==> HasCell(rows, start.value, 'S')
    ensures start.Some? ==> forall p :: HasCell(rows, p, 'S') ==> p == start.value || Before(p, start.value.0, start.value.1)
  {
    forall p | HasCell(rows, p, 'S')
      ensures Before(p, |rows|, 0)
    {
    }
  }

  lemma SplittersNext(rows: seq<string>, row: nat, col: nat)
    requires row < |rows| && col < |rows[row]|
    ensures SplittersBefore(rows, row, col + 1)
      == SplittersBefore(rows, row, col) + if rows[row][col] == '^' then {(row, col)} else {}
  {
  }

  lemma SplittersRowEnd(rows: seq<string>, row: nat)
    requires row < |rows|
    ensures SplittersBefore(rows, row, |rows[row]|) == SplittersBefore(rows, row + 1, 0)
  {
  }
}
