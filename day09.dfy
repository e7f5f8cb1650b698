// Red tiles at integer positions, read in order as the corners of a
// rectilinear loop. Part 1 finds the largest rectangle, counted in whole
// tiles, that has two red tiles as opposite corners. Part 2 asks the same
// of rectangles that lie inside the loop. It compresses the coordinates to
// the distinct values that occur, fills the compressed cells inside the
// loop by a scanline parity sweep over its vertical edges, and answers
// each inside-or-not question with a two-dimensional prefix sum.
module Day09 {
  import opened Text
  import opened Sorting

  /** A red tile; `(i64, i64)` in the source. */
  datatype Tile = Tile(x: int, y: int)

  function Abs(v: int): nat
  {
    if v < 0 then -v else v
  }

  function Min(a: int, b: int): int { if a <= b then a else b }
  function Max(a: int, b: int): int { if a <= b then b else a }

  // ------------------------------------------------------------- the area

  /** `inclusive_area`: the number of tiles of the rectangle with opposite
      corners `a` and `b`, both borders included. */
  function InclusiveArea(a: Tile, b: Tile): (r: nat)
    ensures r >= Abs(a.x - b.x) + 1 && r >= Abs(a.y - b.y) + 1
  {
    var w, h := Abs(a.x - b.x) + 1, Abs(a.y - b.y) + 1;
    MulAtLeast(w, h);
    w * h
  }

  lemma MulAtLeast(w: nat, h: nat)
    requires w >= 1 && h >= 1
    ensures w * h >= w && w * h >= h
  {
    assert w * h == w * (h - 1) + w;
    assert w * h == (w - 1) * h + h;
  }

  /** The area does not depend on which corner comes first, and it is at
      least one tile. */
  lemma InclusiveAreaFacts(a: Tile, b: Tile)
    ensures InclusiveArea(a, b) == InclusiveArea(b, a)
    ensures InclusiveArea(a, b) >= 1
  {
    assert Abs(a.x - b.x) == Abs(b.x - a.x) && Abs(a.y - b.y) == Abs(b.y - a.y);
  }

  lemma MulMonotone(a: nat, b: nat, c: nat, d: nat)
    requires a <= c && b <= d
    ensures a * b <= c * d
  {
    assert a * b <= c * b by {
      assert c * b == a * b + (c - a) * b;
    }
    assert c * b <= c * d by {
      assert c * d == c * b + c * (d - b);
    }
  }

  /** A rectangle no wider than `w` and no taller than `h` has at most
      `w * h` tiles: the bound both parts prune with. */
  lemma AreaBound(a: Tile, b: Tile, w: nat, h: nat)
    requires Abs(a.x - b.x) + 1 <= w && Abs(a.y - b.y) + 1 <= h
    ensures InclusiveArea(a, b) <= w * h
  {
    MulMonotone(Abs(a.x - b.x) + 1, Abs(a.y - b.y) + 1, w, h);
  }

  // ------------------------------------------------------ the compression

  predicate StrictlyIncreasing(s: seq<int>)
  {
    forall i, j :: 0 <= i < j < |s| ==> s[i] < s[j]
  }

  function Identity(v: int): int { v }

  /** `dedup` on a sorted sequence: one copy of each run of equal values. */
  function Dedup(s: seq<int>): (r: seq<int>)
    requires SortedBy(s, Identity)
    ensures StrictlyIncreasing(r)
    ensures forall v :: v in r <==> v in s
    ensures s != [] ==> r != [] && r[0] == s[0]
  {
    if |s| <= 1 then s
    else if s[0] == s[1] then Dedup(s[1..])
    else
      var rest := Dedup(s[1..]);
      assert s[0] < rest[0];
      [s[0]] + rest
  }

  /** The sorted distinct values of `vals`: `sort_unstable` then `dedup`. */
  function Axis(vals: seq<int>): (axis: seq<int>)
    ensures StrictlyIncreasing(axis)
    ensures forall v :: v in axis <==> v in vals
  {
    var sorted := SortBy(vals, Identity);
    SortByFacts(vals, Identity);
    assert forall v :: v in sorted <==> v in multiset(sorted);
    Dedup(sorted)
  }

  /** The map from each value of `axis` to its position. */
  function AxisIndex(axis: seq<int>): (m: map<int, nat>)
    requires StrictlyIncreasing(axis)
    ensures IndexesAxis(m, axis)
  {
    if axis == [] then map[]
    else
      var prev := AxisIndex(axis[..|axis| - 1]);
      AxisIndexSnoc(axis, prev);
      prev[axis[|axis| - 1] := |axis| - 1]
  }

  /** `m` maps exactly the values of `axis`, each to its position. */
  ghost predicate IndexesAxis(m: map<int, nat>, axis: seq<int>)
  {
    && (forall v :: v in m <==> v in axis)
    && (forall i :: 0 <= i < |axis| ==> axis[i] in m && m[axis[i]] == i)
    && (forall v :: v in m ==> m[v] < |axis|)
    && |m| == |axis|
  }

  /** Mapping one more, larger value to the next position extends the index. */
  lemma AxisIndexSnoc(axis: seq<int>, prev: map<int, nat>)
    requires axis != [] && StrictlyIncreasing(axis)
    requires IndexesAxis(prev, axis[..|axis| - 1])
    ensures IndexesAxis(prev[axis[|axis| - 1] := |axis| - 1], axis)
  {
    var n := |axis| - 1;
    var init := axis[..n];
    assert axis == init + [axis[n]];
    assert forall i :: 0 <= i < n ==> init[i] == axis[i];
    assert axis[n] !in init;
    assert IndexesAxis(prev, init);
    assert forall v :: v in prev <==> v in init;
    assert axis[n] !in prev;
    var m := prev[axis[n] := n];
    assert |m| == |prev| + 1;
    forall i | 0 <= i < |axis| ensures axis[i] in m && m[axis[i]] == i {
      if i < n {
        assert axis[i] == init[i] != axis[n];
      }
    }
  }

  /** What `compress_axes` returns. */
  datatype Axes = Axes(xs: seq<int>, ys: seq<int>, xIndex: map<int, nat>, yIndex: map<int, nat>)

  function Xs(points: seq<Tile>): seq<int>
  {
    seq(|points|, i requires 0 <= i < |points| => points[i].x)
  }

  function Ys(points: seq<Tile>): seq<int>
  {
    seq(|points|, i requires 0 <= i < |points| => points[i].y)
  }

  /** `compress_axes`: the distinct x and y values in increasing order,
      each with the map back from a value to its position. */
  function CompressAxes(points: seq<Tile>): (c: Axes)
    ensures StrictlyIncreasing(c.xs) && StrictlyIncreasing(c.ys)
    ensures forall v :: v in c.xs <==> v in Xs(points)
    ensures forall v :: v in c.ys <==> v in Ys(points)
    ensures forall i :: 0 <= i < |c.xs| ==> c.xs[i] in c.xIndex && c.xIndex[c.xs[i]] == i
    ensures forall i :: 0 <= i < |c.ys| ==> c.ys[i] in c.yIndex && c.yIndex[c.ys[i]] == i
    ensures forall v :: v in c.xIndex <==> v in c.xs
    ensures forall v :: v in c.yIndex <==> v in c.ys
    ensures forall v :: v in c.xIndex ==> c.xIndex[v] < |c.xs|
    ensures forall v :: v in c.yIndex ==> c.yIndex[v] < |c.ys|
    ensures |c.xIndex| == |c.xs| && |c.yIndex| == |c.ys|
  {
    var xs, ys := Axis(Xs(points)), Axis(Ys(points));
    Axes(xs, ys, AxisIndex(xs), AxisIndex(ys))
  }

  /** A value of an increasing axis lies between its first and last entry. */
  lemma AxisBounds(axis: seq<int>, v: int)
    requires StrictlyIncreasing(axis) && v in axis
    ensures axis[0] <= v <= axis[|axis| - 1]
  {
    var i :| 0 <= i < |axis| && axis[i] == v;
  }

  /** Every tile's coordinates have a compressed index, and the axes start
      and end at the smallest and largest coordinate. */
  lemma CompressCovers(points: seq<Tile>, p: Tile)
    requires p in points
    ensures var c := CompressAxes(points);
      && p.x in c.xIndex && p.y in c.yIndex
      && c.xs[0] <= p.x <= c.xs[|c.xs| - 1]
      && c.ys[0] <= p.y <= c.ys[|c.ys| - 1]
  {
    var c := CompressAxes(points);
    var k :| 0 <= k < |points| && points[k] == p;
    assert Xs(points)[k] == p.x && Ys(points)[k] == p.y;
    assert p.x in c.xs && p.y in c.ys;
    AxisBounds(c.xs, p.x);
    AxisBounds(c.ys, p.y);
  }

  // --------------------------------------------------- the vertical edges

  /** A vertical edge's extent, `(y_min, y_max)`. */
  datatype Span = Span(lo: int, hi: int)

  /** The corner after corner `i` around the loop. */
  function Next(points: seq<Tile>, i: nat): Tile
    requires i < |points|
  {
    points[(i + 1) % |points|]
  }

  /** Corner `i` starts a vertical edge whose x has index `c`. */
  predicate VerticalAt(points: seq<Tile>, xIndex: map<int, nat>, i: nat, c: nat)
    requires i < |points|
  {
    points[i].x == Next(points, i).x && points[i].x in xIndex && xIndex[points[i].x] == c
  }

  /** The rows the edge from corner `i` covers. */
  function SpanOf(points: seq<Tile>, i: nat): Span
    requires i < |points|
  {
    Span(Min(points[i].y, Next(points, i).y), Max(points[i].y, Next(points, i).y))
  }

  predicate IndexBelowSize(xIndex: map<int, nat>)
  {
    forall x :: x in xIndex ==> xIndex[x] < |xIndex|
  }

  /** The vertical edges that the first `k` corners start, in corner order,
      listed under the index of their x. */
  function EdgesUpTo(points: seq<Tile>, xIndex: map<int, nat>, k: nat): (v: seq<seq<Span>>)
    requires k <= |points| && IndexBelowSize(xIndex)
    ensures |v| == |xIndex|
  {
    if k == 0 then seq(|xIndex|, _ => [])
    else
      var prev := EdgesUpTo(points, xIndex, k - 1);
      var i := k - 1;
      if points[i].x == Next(points, i).x && points[i].x in xIndex then
        var c := xIndex[points[i].x];
        prev[c := prev[c] + [SpanOf(points, i)]]
      else prev
  }

  /** `build_vertical_edges`: for each corner, the edge to the next corner
      (the last corner wraps to the first) when both share an x. */
  method BuildVerticalEdges(points: seq<Tile>, xIndex: map<int, nat>) returns (vEdges: seq<seq<Span>>)
    requires IndexBelowSize(xIndex)
    ensures vEdges == EdgesUpTo(points, xIndex, |points|)
  {
    var n := |points|;
    vEdges := seq(|xIndex|, _ => []);
    for i := 0 to n
      invariant vEdges == EdgesUpTo(points, xIndex, i)
    {
      var p1, p2 := points[i], points[(i + 1) % n];
      if p1.x == p2.x && p1.x in xIndex {
        var c := xIndex[p1.x];
        vEdges := vEdges[c := vEdges[c] + [Span(Min(p1.y, p2.y), Max(p1.y, p2.y))]];
      }
    }
  }

  /** Column `c` lists exactly the spans of the vertical edges whose x has
      index `c`. */
  lemma {:induction false} EdgesUpToMembers(points: seq<Tile>, xIndex: map<int, nat>, k: nat, c: nat, s: Span)
    requires k <= |points| && IndexBelowSize(xIndex) && c < |xIndex|
    ensures s in EdgesUpTo(points, xIndex, k)[c]
      <==> exists i :: 0 <= i < k && VerticalAt(points, xIndex, i, c) && s == SpanOf(points, i)
  {
    if k > 0 {
      EdgesUpToMembers(points, xIndex, k - 1, c, s);
      var i := k - 1;
      if s == SpanOf(points, i) && VerticalAt(points, xIndex, i, c) {
        assert s in EdgesUpTo(points, xIndex, k)[c];
      }
    }
  }

  // ------------------------------------------------------ the inside cells

  /** How many of `edges` cover the whole strip from `yStart` to `yEnd`. */
  function Crossing(edges: seq<Span>, yStart: int, yEnd: int): nat
  {
    if edges == [] then 0
    else
      var e := edges[|edges| - 1];
      Crossing(edges[..|edges| - 1], yStart, yEnd) + if e.lo <= yStart && e.hi >= yEnd then 1 else 0
  }

  /** The edges of column `c` that cross the strip of row `r` (between
      `ys[r]` and `ys[r + 1]`); a column past the list has none. */
  function ColumnCrossings(vEdges: seq<seq<Span>>, ys: seq<int>, r: nat, c: nat): nat
    requires r + 1 < |ys|
  {
    if c < |vEdges| then Crossing(vEdges[c], ys[r], ys[r + 1]) else 0
  }

  /** The crossings of row `r`'s strip in the columns before `c`. */
  function CrossingsBefore(vEdges: seq<seq<Span>>, ys: seq<int>, r: nat, c: nat): nat
    requires r + 1 < |ys|
  {
    if c == 0 then 0 else CrossingsBefore(vEdges, ys, r, c - 1) + ColumnCrossings(vEdges, ys, r, c - 1)
  }

  /** The compressed cell in row `r` and column `c` lies inside the loop:
      an odd number of vertical edges at columns up to `c` cross its strip. */
  predicate Inside(vEdges: seq<seq<Span>>, ys: seq<int>, r: nat, c: nat)
    requires r + 1 < |ys|
  {
    CrossingsBefore(vEdges, ys, r, c + 1) % 2 == 1
  }

  /** The inside cells of row `r` in the columns before `c`. */
  function RowCount(vEdges: seq<seq<Span>>, ys: seq<int>, r: nat, c: nat): nat
    requires r + 1 < |ys|
  {
    if c == 0 then 0 else RowCount(vEdges, ys, r, c - 1) + if Inside(vEdges, ys, r, c - 1) then 1 else 0
  }

  /** The inside cells in the rows before `r` and the columns before `c`. */
  function InsideCount(vEdges: seq<seq<Span>>, ys: seq<int>, r: nat, c: nat): nat
    requires r < |ys|
  {
    if r == 0 then 0 else InsideCount(vEdges, ys, r - 1, c) + RowCount(vEdges, ys, r - 1, c)
  }

  lemma {:induction false} InsideCountColumnZero(vEdges: seq<seq<Span>>, ys: seq<int>, r: nat)
    requires r < |ys|
    ensures InsideCount(vEdges, ys, r, 0) == 0
  {
    if r > 0 {
      InsideCountColumnZero(vEdges, ys, r - 1);
    }
  }

  /** `pref[r][c]` counts the inside cells in the rows before `r` and the
      columns before `c`, over `h` rows and `w` columns of cells. */
  predicate PrefixTable(pref: seq<seq<int>>, vEdges: seq<seq<Span>>, ys: seq<int>, w: nat, h: nat)
    requires h < |ys|
  {
    && |pref| == h + 1
    && (forall r :: 0 <= r <= h ==> |pref[r]| == w + 1)
    && forall r, c :: 0 <= r <= h && 0 <= c <= w ==> pref[r][c] == InsideCount(vEdges, ys, r, c)
  }

  lemma ParitySum(a: nat, b: nat)
    ensures ((a + b) % 2 == 1) == ((a % 2 == 1) != (b % 2 == 1))
  {
  }

  /** The loop over one column's edges: flip `inside` once for each edge
      that crosses the strip. */
  method FlipAcross(inside: bool, edges: seq<Span>, yStart: int, yEnd: int) returns (out: bool)
    ensures out == (inside != (Crossing(edges, yStart, yEnd) % 2 == 1))
  {
    out := inside;
    for k := 0 to |edges|
      invariant out == (inside != (Crossing(edges[..k], yStart, yEnd) % 2 == 1))
    {
      assert edges[..k + 1][..k] == edges[..k];
      if edges[k].lo <= yStart && edges[k].hi >= yEnd {
        out := !out;
      }
    }
    assert edges[..|edges|] == edges;
  }

  /** One column of the row sweep: flip the parity for the column's
      crossing edges, then count the cell when it is inside. */
  method ColumnStep(inside: bool, rowSum: int, vEdges: seq<seq<Span>>, ys: seq<int>, r: nat, c: nat)
    returns (inside': bool, rowSum': int)
    requires r + 1 < |ys|
    requires inside == (CrossingsBefore(vEdges, ys, r, c) % 2 == 1)
    requires rowSum == RowCount(vEdges, ys, r, c)
    ensures inside' == (CrossingsBefore(vEdges, ys, r, c + 1) % 2 == 1)
    ensures rowSum' == RowCount(vEdges, ys, r, c + 1)
  {
    inside' := inside;
    if c < |vEdges| {
      inside' := FlipAcross(inside, vEdges[c], ys[r], ys[r + 1]);
    }
    ParitySum(CrossingsBefore(vEdges, ys, r, c), ColumnCrossings(vEdges, ys, r, c));
    rowSum' := if inside' then rowSum + 1 else rowSum;
  }

  /** The entries of `row` up to `c` are those above plus the inside cells
      of row `r` to their left. */
  predicate RowFilled(row: seq<int>, above: seq<int>, vEdges: seq<seq<Span>>, ys: seq<int>, r: nat, c: nat)
    requires r + 1 < |ys| && c < |row| && c < |above|
  {
    forall k :: 0 < k <= c ==> row[k] == above[k] + RowCount(vEdges, ys, r, k)
  }

  lemma RowFilledStep(row: seq<int>, above: seq<int>, vEdges: seq<seq<Span>>, ys: seq<int>, r: nat, c: nat, v: int)
    requires r + 1 < |ys| && c + 1 < |row| && c + 1 < |above|
    requires RowFilled(row, above, vEdges, ys, r, c)
    requires v == above[c + 1] + RowCount(vEdges, ys, r, c + 1)
    ensures RowFilled(row[c + 1 := v], above, vEdges, ys, r, c + 1)
  {
  }

  /** One row of `build_prefix_sums`: sweep the columns left to right,
      keeping the parity of the crossings so far and the number of inside
      cells so far, and write each entry of the next table row from the
      entry above it. */
  method FillRow(above: seq<int>, row0: seq<int>, vEdges: seq<seq<Span>>, ys: seq<int>, r: nat, w: nat) returns (row: seq<int>)
    requires r + 1 < |ys| && |above| == w + 1 && |row0| == w + 1
    ensures |row| == w + 1 && row[0] == row0[0]
    ensures forall c :: 0 < c <= w ==> row[c] == above[c] + RowCount(vEdges, ys, r, c)
  {
    var inside := false;
    var rowSum := 0;
    row := row0;
    for c := 0 to w
      invariant |row| == w + 1 && row[0] == row0[0]
      invariant inside == (CrossingsBefore(vEdges, ys, r, c) % 2 == 1)
      invariant rowSum == RowCount(vEdges, ys, r, c)
      invariant RowFilled(row, above, vEdges, ys, r, c)
    {
      inside, rowSum := ColumnStep(inside, rowSum, vEdges, ys, r, c);
      RowFilledStep(row, above, vEdges, ys, r, c, above[c + 1] + rowSum);
      row := row[c + 1 := above[c + 1] + rowSum];
    }
  }

  /** `build_prefix_sums`: the prefix table of the inside cells over the
      `|xs| - 1` by `|ys| - 1` compressed cells. Empty axes make the
      source's `len() - 1` underflow, so they are excluded. */
  method BuildPrefixSums(xs: seq<int>, ys: seq<int>, vEdges: seq<seq<Span>>) returns (pref: seq<seq<int>>)
    requires |xs| >= 1 && |ys| >= 1
    ensures PrefixTable(pref, vEdges, ys, |xs| - 1, |ys| - 1)
  {
    var w, h := |xs| - 1, |ys| - 1;
    pref := seq(h + 1, _ => seq(w + 1, _ => 0));
    for r := 0 to h
      invariant PrefixRowsUpTo(pref, vEdges, ys, w, h, r)
    {
      var row := FillRow(pref[r], pref[r + 1], vEdges, ys, r, w);
      PrefixRowStep(pref, row, vEdges, ys, w, h, r);
      pref := pref[r + 1 := row];
    }
  }

  /** The rows of the table up to `r` hold their prefix counts and the rows
      after it still hold zeros. */
  ghost predicate PrefixRowsUpTo(pref: seq<seq<int>>, vEdges: seq<seq<Span>>, ys: seq<int>, w: nat, h: nat, r: nat)
    requires h < |ys|
  {
    && |pref| == h + 1 && (forall i :: 0 <= i <= h ==> |pref[i]| == w + 1)
    && (forall i, c :: r < i <= h && 0 <= c <= w ==> pref[i][c] == 0)
    && (forall i, c :: 0 <= i <= r && i <= h && 0 <= c <= w ==> pref[i][c] == InsideCount(vEdges, ys, i, c))
  }

  /** Filling row `r + 1` from row `r` and the counts of row `r` extends the
      filled rows by one. */
  lemma PrefixRowStep(pref: seq<seq<int>>, row: seq<int>, vEdges: seq<seq<Span>>, ys: seq<int>, w: nat, h: nat, r: nat)
    requires h < |ys| && r < h && PrefixRowsUpTo(pref, vEdges, ys, w, h, r)
    requires |row| == w + 1 && row[0] == pref[r + 1][0]
    requires forall c :: 0 < c <= w ==> row[c] == pref[r][c] + RowCount(vEdges, ys, r, c)
    ensures PrefixRowsUpTo(pref[r + 1 := row], vEdges, ys, w, h, r + 1)
  {
    InsideCountColumnZero(vEdges, ys, r + 1);
    var p := pref[r + 1 := row];
    forall i, c | 0 <= i <= r + 1 && 0 <= c <= w
      ensures p[i][c] == InsideCount(vEdges, ys, i, c)
    {
      if i == r + 1 && c > 0 {
        assert InsideCount(vEdges, ys, r + 1, c) == InsideCount(vEdges, ys, r, c) + RowCount(vEdges, ys, r, c);
      }
    }
  }

  // ----------------------------------------------------- rectangle queries

  /** `rect_sum`: inclusion and exclusion over the prefix table. */
  function RectSum(pref: seq<seq<int>>, xMin: nat, xMax: nat, yMin: nat, yMax: nat): int
    requires yMin < |pref| && yMax < |pref|
    requires xMin < |pref[yMin]| && xMax < |pref[yMin]| && xMin < |pref[yMax]| && xMax < |pref[yMax]|
  {
    pref[yMax][xMax] - pref[yMin][xMax] - pref[yMax][xMin] + pref[yMin][xMin]
  }

  /** The inside cells of row `r` in the columns from `xMin` to before `xMax`. */
  function RowSpanCount(vEdges: seq<seq<Span>>, ys: seq<int>, r: nat, xMin: nat, xMax: nat): nat
    requires r + 1 < |ys| && xMin <= xMax
    decreases xMax - xMin
  {
    if xMax == xMin then 0
    else RowSpanCount(vEdges, ys, r, xMin, xMax - 1) + if Inside(vEdges, ys, r, xMax - 1) then 1 else 0
  }

  /** The inside cells of the cells `[xMin, xMax)` by `[yMin, yMax)`. */
  function RectCount(vEdges: seq<seq<Span>>, ys: seq<int>, xMin: nat, xMax: nat, yMin: nat, yMax: nat): nat
    requires yMax < |ys| && xMin <= xMax && yMin <= yMax
    decreases yMax - yMin
  {
    if yMax == yMin then 0
    else RectCount(vEdges, ys, xMin, xMax, yMin, yMax - 1) + RowSpanCount(vEdges, ys, yMax - 1, xMin, xMax)
  }

  /** Every cell of the rectangle `[xMin, xMax)` by `[yMin, yMax)` is inside. */
  predicate AllInside(vEdges: seq<seq<Span>>, ys: seq<int>, xMin: nat, xMax: nat, yMin: nat, yMax: nat)
    requires yMax < |ys|
  {
    forall r, c :: yMin <= r < yMax && xMin <= c < xMax ==> Inside(vEdges, ys, r, c)
  }

  lemma {:induction false} RowCountSplit(vEdges: seq<seq<Span>>, ys: seq<int>, r: nat, xMin: nat, xMax: nat)
    requires r + 1 < |ys| && xMin <= xMax
    ensures RowCount(vEdges, ys, r, xMax) == RowCount(vEdges, ys, r, xMin) + RowSpanCount(vEdges, ys, r, xMin, xMax)
    decreases xMax - xMin
  {
    if xMax > xMin {
      RowCountSplit(vEdges, ys, r, xMin, xMax - 1);
    }
  }

  lemma {:induction false} InsideCountSplit(vEdges: seq<seq<Span>>, ys: seq<int>, xMin: nat, xMax: nat, yMin: nat, yMax: nat)
    requires yMax < |ys| && xMin <= xMax && yMin <= yMax
    ensures InsideCount(vEdges, ys, yMax, xMax) - InsideCount(vEdges, ys, yMin, xMax)
      - InsideCount(vEdges, ys, yMax, xMin) + InsideCount(vEdges, ys, yMin, xMin)
      == RectCount(vEdges, ys, xMin, xMax, yMin, yMax)
    decreases yMax - yMin
  {
    if yMax > yMin {
      InsideCountSplit(vEdges, ys, xMin, xMax, yMin, yMax - 1);
      RowCountSplit(vEdges, ys, yMax - 1, xMin, xMax);
    }
  }

  /** On a prefix table, `rect_sum` counts the inside cells of the rectangle. */
  lemma RectSumCounts(pref: seq<seq<int>>, vEdges: seq<seq<Span>>, ys: seq<int>, w: nat, h: nat,
                      xMin: nat, xMax: nat, yMin: nat, yMax: nat)
    requires h < |ys| && PrefixTable(pref, vEdges, ys, w, h)
    requires xMin <= xMax <= w && yMin <= yMax <= h
    ensures RectSum(pref, xMin, xMax, yMin, yMax) == RectCount(vEdges, ys, xMin, xMax, yMin, yMax)
  {
    InsideCountSplit(vEdges, ys, xMin, xMax, yMin, yMax);
  }

  /** A row span holds at most one inside cell per column, and exactly that
      many when every cell is inside. */
  lemma {:induction false} RowSpanFull(vEdges: seq<seq<Span>>, ys: seq<int>, r: nat, xMin: nat, xMax: nat)
    requires r + 1 < |ys| && xMin <= xMax
    ensures RowSpanCount(vEdges, ys, r, xMin, xMax) <= xMax - xMin
    ensures RowSpanCount(vEdges, ys, r, xMin, xMax) == xMax - xMin
      <==> forall c :: xMin <= c < xMax ==> Inside(vEdges, ys, r, c)
    decreases xMax - xMin
  {
    if xMax > xMin {
      RowSpanFull(vEdges, ys, r, xMin, xMax - 1);
    }
  }

  lemma AddRow(a: nat, rows: nat)
    ensures a * (rows + 1) == a * rows + a
  {
  }

  /** A rectangle holds at most as many inside cells as it has cells, and
      exactly that many when all of them are inside: the test part 2 uses. */
  lemma {:induction false} RectCountFull(vEdges: seq<seq<Span>>, ys: seq<int>, xMin: nat, xMax: nat, yMin: nat, yMax: nat)
    requires yMax < |ys| && xMin <= xMax && yMin <= yMax
    ensures RectCount(vEdges, ys, xMin, xMax, yMin, yMax) <= (xMax - xMin) * (yMax - yMin)
    ensures RectCount(vEdges, ys, xMin, xMax, yMin, yMax) == (xMax - xMin) * (yMax - yMin)
      <==> AllInside(vEdges, ys, xMin, xMax, yMin, yMax)
    decreases yMax - yMin
  {
    if yMax > yMin {
      var w, r := xMax - xMin, yMax - 1;
      RectCountFull(vEdges, ys, xMin, xMax, yMin, r);
      RowSpanFull(vEdges, ys, r, xMin, xMax);
      AddRow(w, r - yMin);
      if AllInside(vEdges, ys, xMin, xMax, yMin, yMax) {
        assert AllInside(vEdges, ys, xMin, xMax, yMin, r);
      }
      if AllInside(vEdges, ys, xMin, xMax, yMin, r) && forall c :: xMin <= c < xMax ==> Inside(vEdges, ys, r, c) {
        assert AllInside(vEdges, ys, xMin, xMax, yMin, yMax);
      }
    }
  }

  // ----------------------------------------------------------------- parts

  function XKey(t: Tile): int { t.x }

  /** `sorted_points`: the corners by increasing x. */
  function SortedTiles(points: seq<Tile>): seq<Tile>
  {
    SortBy(points, XKey)
  }

  lemma SortedTilesFacts(points: seq<Tile>)
    ensures SortedBy(SortedTiles(points), XKey)
    ensures multiset(SortedTiles(points)) == multiset(points)
    ensures |SortedTiles(points)| == |points|
    ensures forall t :: t in SortedTiles(points) <==> t in points
  {
    SortByFacts(points, XKey);
    var pts := SortedTiles(points);
    assert |pts| == |multiset(pts)| == |multiset(points)| == |points|;
    assert forall t :: t in pts <==> t in multiset(pts);
  }

  /** `iter().map(|p| p.1).min()` on a non-empty list (the source unwraps). */
  function MinY(points: seq<Tile>): (m: int)
    requires points != []
    ensures forall p :: p in points ==> m <= p.y
    ensures exists k :: 0 <= k < |points| && points[k].y == m
  {
    if |points| == 1 then points[0].y
    else
      var rest := MinY(points[1..]);
      assert forall p :: p in points[1..] ==> p in points;
      var k :| 0 <= k < |points[1..]| && points[1..][k].y == rest;
      assert points[k + 1].y == rest;
      Min(points[0].y, rest)
  }

  /** `iter().map(|p| p.1).max()` on a non-empty list. */
  function MaxY(points: seq<Tile>): (m: int)
    requires points != []
    ensures forall p :: p in points ==> p.y <= m
    ensures exists k :: 0 <= k < |points| && points[k].y == m
  {
    if |points| == 1 then points[0].y
    else
      var rest := MaxY(points[1..]);
      var k :| 0 <= k < |points[1..]| && points[1..][k].y == rest;
      assert points[k + 1].y == rest;
      Max(points[0].y, rest)
  }

  /** No pair of corners before `i`, with its partner after it, has more
      than `best` tiles. */
  ghost predicate BoundBefore(pts: seq<Tile>, i: nat, best: nat)
  {
    forall a, b :: 0 <= a < b < |pts| && a < i ==> InclusiveArea(pts[a], pts[b]) <= best
  }

  /** `best` is 0 or the area of some pair of corners. */
  ghost predicate Witnessed(pts: seq<Tile>, best: nat)
  {
    best == 0 || exists a, b :: 0 <= a < b < |pts| && InclusiveArea(pts[a], pts[b]) == best
  }

  /** `best` is the largest area over all pairs of corners, or 0 when there
      is no pair. */
  ghost predicate IsMaxArea(pts: seq<Tile>, best: nat)
  {
    BoundBefore(pts, |pts|, best) && Witnessed(pts, best)
  }

  /** The pruning of both parts: a partner after corner `i` in x order is
      at most `x_last - x` away in x, and any two corners are at most the
      y range apart in y. */
  lemma PruneSound(pts: seq<Tile>, i: nat, j: nat, minY: int, maxY: int)
    requires SortedBy(pts, XKey) && i < j < |pts|
    requires forall k :: 0 <= k < |pts| ==> minY <= pts[k].y <= maxY
    ensures InclusiveArea(pts[i], pts[j]) <= (Abs(pts[|pts| - 1].x - pts[i].x) + 1) * (Abs(maxY - minY) + 1)
  {
    assert XKey(pts[i]) <= XKey(pts[j]) && (j == |pts| - 1 || XKey(pts[j]) <= XKey(pts[|pts| - 1]));
    AreaBound(pts[i], pts[j], Abs(pts[|pts| - 1].x - pts[i].x) + 1, Abs(maxY - minY) + 1);
  }

  /** The inner loop of part 1: the best area so far against every partner
      after corner `i`. */
  method ScanPairs(pts: seq<Tile>, i: nat, best: nat) returns (best': nat)
    requires i < |pts| && Witnessed(pts, best)
    ensures best <= best' && Witnessed(pts, best')
    ensures forall j :: i < j < |pts| ==> InclusiveArea(pts[i], pts[j]) <= best'
  {
    best' := best;
    for j := i + 1 to |pts|
      invariant best <= best' && Witnessed(pts, best')
      invariant forall k :: i < k < j ==> InclusiveArea(pts[i], pts[k]) <= best'
    {
      var area := InclusiveArea(pts[i], pts[j]);
      if area > best' {
        best' := area;
      }
    }
  }

  /** Raising `best` past the pairs of corner `i` extends the bound. */
  lemma BoundBeforeStep(pts: seq<Tile>, i: nat, best: nat, best': nat)
    requires i < |pts| && BoundBefore(pts, i, best) && best <= best'
    requires forall j :: i < j < |pts| ==> InclusiveArea(pts[i], pts[j]) <= best'
    ensures BoundBefore(pts, i + 1, best')
  {
  }

  /** One pass of part 1's outer loop: skip corner `i` when even the widest
      and tallest rectangle from it cannot beat `best`, else scan its
      partners. */
  method PartnersOf(pts: seq<Tile>, i: nat, best: nat, minY: int, maxY: int) returns (best': nat)
    requires SortedBy(pts, XKey) && i < |pts| && Witnessed(pts, best)
    requires forall k :: 0 <= k < |pts| ==> minY <= pts[k].y <= maxY
    ensures best <= best' && Witnessed(pts, best')
    ensures forall j :: i < j < |pts| ==> InclusiveArea(pts[i], pts[j]) <= best'
  {
    var width := Abs(pts[|pts| - 1].x - pts[i].x) + 1;
    var height := Abs(maxY - minY) + 1;
    if width * height <= best {
      forall j | i < j < |pts|
        ensures InclusiveArea(pts[i], pts[j]) <= best
      {
        PruneSound(pts, i, j, minY, maxY);
      }
      best' := best;
    } else {
      best' := ScanPairs(pts, i, best);
    }
  }

  /** `solve_part_1`: the largest area over all pairs of corners. With no
      corners the source's `unwrap` panics; that is `None` here. */
  method SolvePart1(points: seq<Tile>) returns (r: Option<nat>)
    ensures r.None? <==> points == []
    ensures r.Some? ==> IsMaxArea(SortedTiles(points), r.value)
  {
    if points == [] {
      return None;
    }
    var minY, maxY := MinY(points), MaxY(points);
    var pts := SortedTiles(points);
    SortedTilesFacts(points);
    forall k | 0 <= k < |pts|
      ensures minY <= pts[k].y <= maxY
    {
      assert pts[k] in points;
    }
    var best := 0;
    for i := 0 to |pts|
      invariant BoundBefore(pts, i, best) && Witnessed(pts, best)
    {
      var best' := PartnersOf(pts, i, best, minY, maxY);
      BoundBeforeStep(pts, i, best, best');
      best := best';
    }
    return Some(best);
  }

  /** The vertical edges of the loop, under the compressed index of their x. */
  function VerticalEdges(points: seq<Tile>): seq<seq<Span>>
  {
    EdgesUpTo(points, CompressAxes(points).xIndex, |points|)
  }

  /** Every index of `c` is a position on its axis. */
  predicate IndexBounds(c: Axes)
  {
    && (forall v :: v in c.xIndex ==> c.xIndex[v] < |c.xs|)
    && (forall v :: v in c.yIndex ==> c.yIndex[v] < |c.ys|)
  }

  predicate InAxes(c: Axes, t: Tile)
  {
    t.x in c.xIndex && t.y in c.yIndex
  }

  /** Every corner of `pts` has a compressed index on `c`. */
  predicate Indexed(c: Axes, pts: seq<Tile>)
  {
    IndexBounds(c) && forall k :: 0 <= k < |pts| ==> InAxes(c, pts[k])
  }

  /** The compressed cells between corners `a` and `b`: columns from the
      smaller to before the larger x index, rows likewise. */
  function CellBox(c: Axes, a: Tile, b: Tile): (box: (nat, nat, nat, nat))
    requires IndexBounds(c) && InAxes(c, a) && InAxes(c, b)
    ensures box.0 <= box.1 < |c.xs| && box.2 <= box.3 < |c.ys|
  {
    var xa, xb, ya, yb := c.xIndex[a.x], c.xIndex[b.x], c.yIndex[a.y], c.yIndex[b.y];
    (Min(xa, xb), Max(xa, xb), Min(ya, yb), Max(ya, yb))
  }

  /** The rectangle with corners `a` and `b` lies inside the loop: every
      compressed cell it spans is inside. */
  predicate Enclosed(c: Axes, vEdges: seq<seq<Span>>, a: Tile, b: Tile)
    requires IndexBounds(c) && InAxes(c, a) && InAxes(c, b)
  {
    var box := CellBox(c, a, b);
    AllInside(vEdges, c.ys, box.0, box.1, box.2, box.3)
  }

  /** The area of an enclosed pair, 0 for any other. */
  function EnclosedArea(c: Axes, vEdges: seq<seq<Span>>, a: Tile, b: Tile): nat
    requires IndexBounds(c) && InAxes(c, a) && InAxes(c, b)
  {
    if Enclosed(c, vEdges, a, b) then InclusiveArea(a, b) else 0
  }

  /** No enclosed pair of corners before `i`, with its partner after it,
      has more than `best` tiles. */
  ghost predicate EnclosedBoundBefore(c: Axes, vEdges: seq<seq<Span>>, pts: seq<Tile>, i: nat, best: nat)
  {
    && Indexed(c, pts)
    && forall a, b :: 0 <= a < b < |pts| && a < i ==> EnclosedArea(c, vEdges, pts[a], pts[b]) <= best
  }

  /** `best` is 0 or the area of some enclosed pair of corners. */
  ghost predicate EnclosedWitnessed(c: Axes, vEdges: seq<seq<Span>>, pts: seq<Tile>, best: nat)
  {
    && Indexed(c, pts)
    && (best == 0 || exists a, b :: 0 <= a < b < |pts| && EnclosedArea(c, vEdges, pts[a], pts[b]) == best)
  }

  /** `best` is the largest area over the enclosed pairs of corners, or 0
      when there is none. */
  ghost predicate IsMaxEnclosed(c: Axes, vEdges: seq<seq<Span>>, pts: seq<Tile>, best: nat)
  {
    EnclosedBoundBefore(c, vEdges, pts, |pts|, best) && EnclosedWitnessed(c, vEdges, pts, best)
  }

  /** The prefix table over the cells of `c` that part 2 queries. */
  predicate Prepared(c: Axes, vEdges: seq<seq<Span>>, pref: seq<seq<int>>)
  {
    |c.xs| >= 1 && |c.ys| >= 1 && PrefixTable(pref, vEdges, c.ys, |c.xs| - 1, |c.ys| - 1)
  }

  /** The test of part 2: the prefix-table count of the box's inside cells
      equals its number of cells exactly when the pair is enclosed. */
  lemma AcceptIffEnclosed(c: Axes, vEdges: seq<seq<Span>>, pref: seq<seq<int>>, a: Tile, b: Tile)
    requires Prepared(c, vEdges, pref) && IndexBounds(c) && InAxes(c, a) && InAxes(c, b)
    ensures var box := CellBox(c, a, b);
      && box.1 < |pref[box.2]| && box.1 < |pref[box.3]| && box.3 < |pref|
      && (RectSum(pref, box.0, box.1, box.2, box.3) == (box.1 - box.0) * (box.3 - box.2)
          <==> Enclosed(c, vEdges, a, b))
  {
    var box := CellBox(c, a, b);
    var w, h := |c.xs| - 1, |c.ys| - 1;
    RectSumCounts(pref, vEdges, c.ys, w, h, box.0, box.1, box.2, box.3);
    RectCountFull(vEdges, c.ys, box.0, box.1, box.2, box.3);
  }

  /** The inner loop of part 2: partners after corner `i` whose rectangle
      beats `best` and is enclosed raise it. */
  method ScanEnclosed(c: Axes, vEdges: seq<seq<Span>>, pref: seq<seq<int>>, pts: seq<Tile>, i: nat, best: nat)
    returns (best': nat)
    requires Prepared(c, vEdges, pref) && i < |pts|
    requires EnclosedWitnessed(c, vEdges, pts, best)
    ensures best <= best' && EnclosedWitnessed(c, vEdges, pts, best')
    ensures forall j :: i < j < |pts| ==> EnclosedArea(c, vEdges, pts[i], pts[j]) <= best'
  {
    best' := best;
    for j := i + 1 to |pts|
      invariant best <= best' && EnclosedWitnessed(c, vEdges, pts, best')
      invariant forall k :: i < k < j ==> EnclosedArea(c, vEdges, pts[i], pts[k]) <= best'
    {
      var area := InclusiveArea(pts[i], pts[j]);
      if area > best' {
        var inside := TestEnclosed(c, vEdges, pref, pts[i], pts[j]);
        if inside {
          assert EnclosedArea(c, vEdges, pts[i], pts[j]) == area;
          best' := area;
        }
      }
    }
  }

  /** The prefix-table test for one pair of corners: its box's count of
      inside cells is the box's number of cells. */
  method TestEnclosed(c: Axes, vEdges: seq<seq<Span>>, pref: seq<seq<int>>, a: Tile, b: Tile) returns (inside: bool)
    requires Prepared(c, vEdges, pref) && IndexBounds(c) && InAxes(c, a) && InAxes(c, b)
    ensures inside == Enclosed(c, vEdges, a, b)
  {
    AcceptIffEnclosed(c, vEdges, pref, a, b);
    var box := CellBox(c, a, b);
    var target := (box.1 - box.0) * (box.3 - box.2);
    var actual := RectSum(pref, box.0, box.1, box.2, box.3);
    inside := actual == target;
  }

  /** Raising `best` past the enclosed pairs of corner `i` extends the bound. */
  lemma EnclosedBoundBeforeStep(c: Axes, vEdges: seq<seq<Span>>, pts: seq<Tile>, i: nat, best: nat, best': nat)
    requires i < |pts| && EnclosedBoundBefore(c, vEdges, pts, i, best) && best <= best'
    requires forall j :: i < j < |pts| ==> EnclosedArea(c, vEdges, pts[i], pts[j]) <= best'
    ensures EnclosedBoundBefore(c, vEdges, pts, i + 1, best')
  {
  }

  /** One pass of part 2's outer loop: skip corner `i` when even the widest
      and tallest rectangle from it cannot beat `best`, else scan its
      partners. */
  method EnclosedPartnersOf(c: Axes, vEdges: seq<seq<Span>>, pref: seq<seq<int>>, pts: seq<Tile>, i: nat, best: nat)
    returns (best': nat)
    requires Prepared(c, vEdges, pref) && SortedBy(pts, XKey) && i < |pts|
    requires forall k :: 0 <= k < |pts| ==> c.ys[0] <= pts[k].y <= c.ys[|c.ys| - 1]
    requires EnclosedWitnessed(c, vEdges, pts, best)
    ensures best <= best' && EnclosedWitnessed(c, vEdges, pts, best')
    ensures forall j :: i < j < |pts| ==> EnclosedArea(c, vEdges, pts[i], pts[j]) <= best'
  {
    var width := Abs(pts[|pts| - 1].x - pts[i].x) + 1;
    var height := Abs(c.ys[|c.ys| - 1] - c.ys[0]) + 1;
    if width * height <= best {
      forall j | i < j < |pts|
        ensures InclusiveArea(pts[i], pts[j]) <= best
      {
        PruneSound(pts, i, j, c.ys[0], c.ys[|c.ys| - 1]);
      }
      best' := best;
    } else {
      best' := ScanEnclosed(c, vEdges, pref, pts, i, best);
    }
  }

  /** The corners in x order all have compressed indices, between the
      first and last y of the axis. */
  lemma SortedTilesIndexed(points: seq<Tile>)
    requires points != []
    ensures var c, pts := CompressAxes(points), SortedTiles(points);
      && |c.xs| >= 1 && |c.ys| >= 1 && Indexed(c, pts)
      && forall k :: 0 <= k < |pts| ==> c.ys[0] <= pts[k].y <= c.ys[|c.ys| - 1]
  {
    var c, pts := CompressAxes(points), SortedTiles(points);
    SortedTilesFacts(points);
    CompressCovers(points, points[0]);
    forall k | 0 <= k < |pts|
      ensures InAxes(c, pts[k]) && c.ys[0] <= pts[k].y <= c.ys[|c.ys| - 1]
    {
      assert pts[k] in points;
      CompressCovers(points, pts[k]);
    }
  }

  /** The loops of part 2 over the corners in x order. */
  method MaxEnclosed(c: Axes, vEdges: seq<seq<Span>>, pref: seq<seq<int>>, pts: seq<Tile>) returns (best: nat)
    requires Prepared(c, vEdges, pref) && SortedBy(pts, XKey) && Indexed(c, pts)
    requires forall k :: 0 <= k < |pts| ==> c.ys[0] <= pts[k].y <= c.ys[|c.ys| - 1]
    ensures IsMaxEnclosed(c, vEdges, pts, best)
  {
    best := 0;
    for i := 0 to |pts|
      invariant EnclosedBoundBefore(c, vEdges, pts, i, best) && EnclosedWitnessed(c, vEdges, pts, best)
    {
      var best' := EnclosedPartnersOf(c, vEdges, pref, pts, i, best);
      EnclosedBoundBeforeStep(c, vEdges, pts, i, best, best');
      best := best';
    }
  }

  /** `solve_part_2`: the largest area over the pairs of corners whose
      rectangle lies inside the loop. With no corners the source's
      `len() - 1` underflows; that is `None` here. */
  method SolvePart2(points: seq<Tile>) returns (r: Option<nat>)
    ensures r.None? <==> points == []
    ensures r.Some? ==> IsMaxEnclosed(CompressAxes(points), VerticalEdges(points), SortedTiles(points), r.value)
  {
    if points == [] {
      return None;
    }
    var c, vEdges, pref := PrepareTables(points);
    var pts := SortedTiles(points);
    SortedTilesReady(points);
    var best := MaxEnclosed(c, vEdges, pref, pts);
    return Some(best);
  }

  /** The sorted corners are ordered by x and lie on the compressed axes. */
  lemma SortedTilesReady(points: seq<Tile>)
    requires points != []
    ensures var c, pts := CompressAxes(points), SortedTiles(points);
      && SortedBy(pts, XKey) && Indexed(c, pts)
      && forall k :: 0 <= k < |pts| ==> c.ys[0] <= pts[k].y <= c.ys[|c.ys| - 1]
  {
    SortedTilesIndexed(points);
    SortedTilesFacts(points);
  }

  /** The tables part 2 works from: the compressed axes, the vertical edges
      by column and the prefix table of inside cells. */
  method PrepareTables(points: seq<Tile>) returns (c: Axes, vEdges: seq<seq<Span>>, pref: seq<seq<int>>)
    requires points != []
    ensures c == CompressAxes(points) && vEdges == VerticalEdges(points)
    ensures Prepared(c, vEdges, pref)
  {
    c := CompressAxes(points);
    vEdges := BuildVerticalEdges(points, c.xIndex);
    SortedTilesIndexed(points);
    pref := BuildPrefixSums(c.xs, c.ys, vEdges);
  }

  /** Part 2 never beats part 1: an enclosed pair is still a pair. */
  lemma Part2AtMostPart1(points: seq<Tile>, b1: nat, b2: nat)
    requires IsMaxArea(SortedTiles(points), b1)
    requires IsMaxEnclosed(CompressAxes(points), VerticalEdges(points), SortedTiles(points), b2)
    ensures b2 <= b1
  {
    var pts := SortedTiles(points);
    if b2 > 0 {
      var a, b :| 0 <= a < b < |pts| && EnclosedArea(CompressAxes(points), VerticalEdges(points), pts[a], pts[b]) == b2;
    }
  }

  // ---------------------------------------------------------------- input

  /** One line of the input: the first two comma-separated fields, each a
      signed integer; further fields are ignored. `None` where the source's
      `unwrap` panics (fewer than two fields, a field that is no number). */
  function ParseTile(line: string): (r: Option<Tile>)
    ensures r.Some? ==> |Split(Trim(line), ',')| >= 2
  {
    var f := Split(Trim(line), ',');
    if |f| < 2 then None
    else match (ParseSigned(f[0]), ParseSigned(f[1]))
      case (Some(x), Some(y)) => Some(Tile(x, y))
      case _ => None
  }

  function ParseTiles(lines: seq<string>): (r: Option<seq<Tile>>)
    ensures r.Some? ==> |r.value| == |lines|
  {
    if lines == [] then Some([])
    else match (ParseTile(lines[0]), ParseTiles(lines[1..]))
      case (Some(t), Some(ts)) => Some([t] + ts)
      case _ => None
  }

  /** `Day::create`: one corner per line of the trimmed input. */
  function Create(input: string): Option<seq<Tile>>
  {
    ParseTiles(Lines(Trim(input)))
  }

  /** The line that writes a corner. */
  function ShowTile(t: Tile): string
  {
    ShowSigned(t.x) + "," + ShowSigned(t.y)
  }

  function ShowTiles(tiles: seq<Tile>): seq<string>
  {
    seq(|tiles|, k requires 0 <= k < |tiles| => ShowTile(tiles[k]))
  }

  /** A written number holds neither separator. */
  lemma ShowSignedNoSeparator(i: int)
    ensures ',' !in ShowSigned(i) && '\n' !in ShowSigned(i)
  {
    var s := ShowSigned(i);
    assert forall j :: 0 <= j < |s| ==> s[j] != ',' && s[j] != '\n';
  }

  /** A written corner is one plain line with nothing to trim. */
  lemma ShowTilePlain(t: Tile)
    ensures var line := ShowTile(t);
      && line != [] && '\n' !in line && StripCr(line) == line
      && !IsWhitespace(line[0]) && !IsWhitespace(line[|line| - 1])
  {
    var a, b := ShowSigned(t.x), ShowSigned(t.y);
    var line := ShowTile(t);
    ShowSignedNoSeparator(t.x);
    ShowSignedNoSeparator(t.y);
    assert line == a + ([','] + b);
    assert line[0] == a[0];
    assert line[|line| - 1] == b[|b| - 1];
  }

  /** A written corner parses back to the corner. */
  lemma ParseShowTile(t: Tile)
    ensures ParseTile(ShowTile(t)) == Some(t)
  {
    var a, b := ShowSigned(t.x), ShowSigned(t.y);
    var line := ShowTile(t);
    ShowTilePlain(t);
    TrimNoEdges(line);
    ShowSignedNoSeparator(t.x);
    ShowSignedNoSeparator(t.y);
    assert line == a + [','] + b;
    SplitJoin(a, ',', b);
    assert Split(b, ',') == [b];
    ParseShowSigned(t.x);
    ParseShowSigned(t.y);
  }

  lemma {:induction false} ParseTilesShow(tiles: seq<Tile>, ls: seq<string>)
    requires |ls| == |tiles| && forall k :: 0 <= k < |ls| ==> ls[k] == ShowTile(tiles[k])
    ensures ParseTiles(ls) == Some(tiles)
  {
    if tiles != [] {
      ParseShowTile(tiles[0]);
      ParseTilesShow(tiles[1..], ls[1..]);
      assert [tiles[0]] + tiles[1..] == tiles;
    }
  }

  lemma ShowTilesPlain(tiles: seq<Tile>)
    ensures PlainLines(ShowTiles(tiles))
  {
    var ls := ShowTiles(tiles);
    forall k | 0 <= k < |ls|
      ensures ls[k] != [] && '\n' !in ls[k] && StripCr(ls[k]) == ls[k]
    {
      ShowTilePlain(tiles[k]);
    }
  }

  /** The written corners come back out of the trimmed text line by line. */
  lemma LinesShowTiles(tiles: seq<Tile>)
    requires tiles != []
    ensures Lines(Trim(JoinLines(ShowTiles(tiles)))) == ShowTiles(tiles)
  {
    var ls := ShowTiles(tiles);
    ShowTilesPlain(tiles);
    var k := |tiles| - 1;
    ShowTilePlain(tiles[0]);
    ShowTilePlain(tiles[k]);
    assert |ls| == |tiles|;
    assert ls[0] == ShowTile(tiles[0]);
    assert ls[k] == ShowTile(tiles[k]);
    LinesTrimJoinLines(ls);
  }

  /** Parsing the written corners, one per line, gives the corners back. */
  lemma CreateShowTiles(tiles: seq<Tile>)
    ensures Create(JoinLines(ShowTiles(tiles))) == Some(tiles)
  {
    var ls := ShowTiles(tiles);
    if tiles == [] {
      assert JoinLines(ls) == [];
    } else {
      LinesShowTiles(tiles);
      ParseTilesShow(tiles, ls);
    }
  }
}
