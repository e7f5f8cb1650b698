// Junction boxes in space, joined into circuits closest pair first. A
// disjoint-set forest (union by size, path compression) tracks the
// circuits. Part 1 joins the `count` closest pairs and multiplies the sizes
// of the three largest circuits; part 2 joins pairs in order of distance
// until one circuit remains and multiplies the x coordinates of the pair
// that made it so.
module Day08 {
  import opened Text
  import opened Sorting
  import opened Sets

  // ------------------------------------------------------------- the forest

  /** Every parent is an element and a rank `dist` falls strictly from a
      child to its parent, roots having rank 0: the parent links form a
      forest, and following them from any element reaches a root. */
  ghost predicate Ranked(parent: seq<nat>, dist: seq<nat>)
  {
    && |dist| == |parent|
    && (forall i :: 0 <= i < |parent| ==> parent[i] < |parent|)
    && (forall i :: 0 <= i < |parent| && parent[i] == i ==> dist[i] == 0)
    && (forall i :: 0 <= i < |parent| && parent[i] != i ==> dist[parent[i]] < dist[i])
  }

  /** The root reached from `i` by following parent links. */
  ghost function Root(parent: seq<nat>, dist: seq<nat>, i: nat): (r: nat)
    requires Ranked(parent, dist) && i < |parent|
    ensures r < |parent| && parent[r] == r
    decreases dist[i]
  {
    if parent[i] == i then i else Root(parent, dist, parent[i])
  }

  /** The elements whose root is `r`. */
  ghost function Tree(parent: seq<nat>, dist: seq<nat>, r: nat): set<nat>
    requires Ranked(parent, dist)
  {
    set i | 0 <= i < |parent| && Root(parent, dist, i) == r
  }

  /** The roots. */
  function RootSet(parent: seq<nat>): set<nat>
  {
    set i | 0 <= i < |parent| && parent[i] == i
  }

  /** Only a root is its own root. */
  lemma RootIsSelf(parent: seq<nat>, dist: seq<nat>, i: nat)
    requires Ranked(parent, dist) && i < |parent|
    ensures Root(parent, dist, i) == i <==> parent[i] == i
  {
    if parent[i] != i {
      assert dist[Root(parent, dist, i)] == 0 < dist[i];
    }
  }

  /** Pointing `x` straight at its own root changes no element's root. */
  lemma {:induction false} CompressRoot(parent: seq<nat>, dist: seq<nat>, x: nat, i: nat)
    requires Ranked(parent, dist) && x < |parent| && parent[x] != x && i < |parent|
    requires Ranked(parent[x := Root(parent, dist, x)], dist)
    ensures Root(parent[x := Root(parent, dist, x)], dist, i) == Root(parent, dist, i)
    decreases dist[i]
  {
    var p' := parent[x := Root(parent, dist, x)];
    if i != x && parent[i] != i {
      CompressRoot(parent, dist, x, parent[i]);
    }
  }

  /** Path compression keeps the forest ranked and every root. */
  lemma Compress(parent: seq<nat>, dist: seq<nat>, x: nat)
    requires Ranked(parent, dist) && x < |parent| && parent[x] != x
    ensures Ranked(parent[x := Root(parent, dist, x)], dist)
    ensures forall i :: 0 <= i < |parent| ==> Root(parent[x := Root(parent, dist, x)], dist, i) == Root(parent, dist, i)
  {
    var root := Root(parent, dist, x);
    assert dist[root] == 0 < dist[x];
    forall i | 0 <= i < |parent|
      ensures Root(parent[x := root], dist, i) == Root(parent, dist, i)
    {
      CompressRoot(parent, dist, x, i);
    }
  }

  /** The same roots give the same trees and the same root set. */
  lemma SameRoots(p1: seq<nat>, d1: seq<nat>, p2: seq<nat>, d2: seq<nat>)
    requires Ranked(p1, d1) && Ranked(p2, d2) && |p1| == |p2|
    requires forall i :: 0 <= i < |p1| ==> Root(p1, d1, i) == Root(p2, d2, i)
    ensures forall r :: Tree(p1, d1, r) == Tree(p2, d2, r)
    ensures RootSet(p1) == RootSet(p2)
  {
    forall i | 0 <= i < |p1|
      ensures p1[i] == i <==> p2[i] == i
    {
      RootIsSelf(p1, d1, i);
      RootIsSelf(p2, d2, i);
    }
  }

  /** The ranks after linking root `rb` under root `ra`: `rb`'s whole tree
      moves one level down. */
  ghost function LinkDist(parent: seq<nat>, dist: seq<nat>, rb: nat): (d: seq<nat>)
    requires Ranked(parent, dist)
    ensures |d| == |dist|
  {
    seq(|parent|, i requires 0 <= i < |parent| => if Root(parent, dist, i) == rb then dist[i] + 1 else dist[i])
  }

  lemma {:induction false} LinkRoot(parent: seq<nat>, dist: seq<nat>, ra: nat, rb: nat, i: nat)
    requires Ranked(parent, dist) && ra < |parent| && rb < |parent| && ra != rb
    requires parent[ra] == ra && parent[rb] == rb && i < |parent|
    requires Ranked(parent[rb := ra], LinkDist(parent, dist, rb))
    ensures Root(parent[rb := ra], LinkDist(parent, dist, rb), i)
      == if Root(parent, dist, i) == rb then ra else Root(parent, dist, i)
    decreases dist[i]
  {
    if parent[i] != i {
      LinkRoot(parent, dist, ra, rb, parent[i]);
    }
  }

  /** Linking root `rb` under root `ra` keeps the forest ranked. */
  lemma LinkRanked(parent: seq<nat>, dist: seq<nat>, ra: nat, rb: nat)
    requires Ranked(parent, dist) && ra < |parent| && rb < |parent| && ra != rb
    requires parent[ra] == ra && parent[rb] == rb
    ensures Ranked(parent[rb := ra], LinkDist(parent, dist, rb))
  {
    var p', d' := parent[rb := ra], LinkDist(parent, dist, rb);
    assert Root(parent, dist, ra) == ra;
    forall i | 0 <= i < |parent| && p'[i] != i
      ensures d'[p'[i]] < d'[i]
    {
      if i != rb {
        assert Root(parent, dist, parent[i]) == Root(parent, dist, i);
      }
    }
  }

  /** Linking root `rb` under root `ra` sends `rb`'s tree to `ra` and keeps
      every other root. */
  lemma LinkRoots(parent: seq<nat>, dist: seq<nat>, ra: nat, rb: nat)
    requires Ranked(parent, dist) && ra < |parent| && rb < |parent| && ra != rb
    requires parent[ra] == ra && parent[rb] == rb
    ensures Ranked(parent[rb := ra], LinkDist(parent, dist, rb))
    ensures forall i :: 0 <= i < |parent| ==>
      Root(parent[rb := ra], LinkDist(parent, dist, rb), i) == if Root(parent, dist, i) == rb then ra else Root(parent, dist, i)
  {
    LinkRanked(parent, dist, ra, rb);
    forall i | 0 <= i < |parent|
      ensures Root(parent[rb := ra], LinkDist(parent, dist, rb), i) == if Root(parent, dist, i) == rb then ra else Root(parent, dist, i)
    {
      LinkRoot(parent, dist, ra, rb, i);
    }
  }

  /** Linking root `rb` under root `ra` merges their trees into `ra`'s and
      keeps every other tree. */
  lemma Link(parent: seq<nat>, dist: seq<nat>, ra: nat, rb: nat)
    requires Ranked(parent, dist) && ra < |parent| && rb < |parent| && ra != rb
    requires parent[ra] == ra && parent[rb] == rb
    ensures Ranked(parent[rb := ra], LinkDist(parent, dist, rb))
    ensures forall i :: 0 <= i < |parent| ==>
      Root(parent[rb := ra], LinkDist(parent, dist, rb), i) == if Root(parent, dist, i) == rb then ra else Root(parent, dist, i)
    ensures Tree(parent[rb := ra], LinkDist(parent, dist, rb), ra) == Tree(parent, dist, ra) + Tree(parent, dist, rb)
    ensures forall r :: r != ra && r != rb ==> Tree(parent[rb := ra], LinkDist(parent, dist, rb), r) == Tree(parent, dist, r)
    ensures RootSet(parent[rb := ra]) == RootSet(parent) - {rb}
  {
    LinkRoots(parent, dist, ra, rb);
    var p', d' := parent[rb := ra], LinkDist(parent, dist, rb);
    assert Root(parent, dist, ra) == ra && Root(parent, dist, rb) == rb;
    assert Tree(p', d', ra) == Tree(parent, dist, ra) + Tree(parent, dist, rb);
    forall r | r != ra && r != rb
      ensures Tree(p', d', r) == Tree(parent, dist, r)
    {
    }
  }

  /** A well-formed disjoint-set state: the forest is ranked, a root's size
      counts its tree, and `components` counts the roots. */
  ghost predicate Forest(parent: seq<nat>, dist: seq<nat>, size: seq<nat>, components: nat)
  {
    && |size| == |parent|
    && Ranked(parent, dist)
    && SizesCount(parent, dist, size)
    && components == |RootSet(parent)|
  }

  /** Every root's size is the number of elements in its tree. */
  ghost predicate SizesCount(parent: seq<nat>, dist: seq<nat>, size: seq<nat>)
    requires Ranked(parent, dist) && |size| == |parent|
  {
    forall r :: 0 <= r < |parent| && parent[r] == r ==> size[r] == |Tree(parent, dist, r)|
  }

  /** `(p1, d)` has the same circuits as `(p0, d)`. */
  ghost predicate SameCircuits(p0: seq<nat>, p1: seq<nat>, d: seq<nat>)
    requires Ranked(p0, d) && Ranked(p1, d) && |p0| == |p1|
  {
    forall i :: 0 <= i < |p0| ==> Root(p1, d, i) == Root(p0, d, i)
  }

  /** One step of path compression keeps the state well formed and every
      element's root. */
  lemma CompressStep(parent: seq<nat>, dist: seq<nat>, size: seq<nat>, components: nat, y: nat)
    requires Forest(parent, dist, size, components) && y < |parent| && parent[y] != y
    ensures Forest(parent[y := Root(parent, dist, y)], dist, size, components)
    ensures forall i :: 0 <= i < |parent| ==> Root(parent[y := Root(parent, dist, y)], dist, i) == Root(parent, dist, i)
    ensures Root(parent, dist, parent[y]) == Root(parent, dist, y) && dist[parent[y]] < dist[y]
  {
    Compress(parent, dist, y);
    SameRoots(parent, dist, parent[y := Root(parent, dist, y)], dist);
  }

  /** The circuits of `(p1, d1)` are those of `(p0, d0)` with the circuits
      rooted at `ra` and `rb` fused into one named `w`. */
  ghost predicate Fused(p0: seq<nat>, d0: seq<nat>, p1: seq<nat>, d1: seq<nat>, ra: nat, rb: nat, w: nat)
    requires Ranked(p0, d0) && Ranked(p1, d1) && |p0| == |p1|
  {
    forall i :: 0 <= i < |p0| ==>
      Root(p1, d1, i) == if Root(p0, d0, i) == ra || Root(p0, d0, i) == rb then w else Root(p0, d0, i)
  }

  /** Two roots are two of the roots counted by `components`. */
  lemma TwoRoots(parent: seq<nat>, dist: seq<nat>, size: seq<nat>, components: nat, ra: nat, rb: nat)
    requires Forest(parent, dist, size, components)
    requires ra < |parent| && rb < |parent| && ra != rb && parent[ra] == ra && parent[rb] == rb
    ensures components >= 2
  {
    assert {ra, rb} <= RootSet(parent);
    assert |{ra, rb}| == 2;
    SubsetSize({ra, rb}, RootSet(parent));
  }

  /** After the link, the root `ra` counts both trees and every other root
      its own. */
  lemma LinkSizes(parent: seq<nat>, dist: seq<nat>, size: seq<nat>, components: nat, ra: nat, rb: nat)
    requires Forest(parent, dist, size, components)
    requires ra < |parent| && rb < |parent| && ra != rb && parent[ra] == ra && parent[rb] == rb
    requires Ranked(parent[rb := ra], LinkDist(parent, dist, rb))
    requires Tree(parent[rb := ra], LinkDist(parent, dist, rb), ra) == Tree(parent, dist, ra) + Tree(parent, dist, rb)
    requires forall r :: r != ra && r != rb ==> Tree(parent[rb := ra], LinkDist(parent, dist, rb), r) == Tree(parent, dist, r)
    ensures SizesCount(parent[rb := ra], LinkDist(parent, dist, rb), size[ra := size[ra] + size[rb]])
  {
    var p', d', s' := parent[rb := ra], LinkDist(parent, dist, rb), size[ra := size[ra] + size[rb]];
    assert Tree(parent, dist, ra) !! Tree(parent, dist, rb) by {
      forall i | i in Tree(parent, dist, ra) ensures i !in Tree(parent, dist, rb) { }
    }
    DisjointUnionSize(Tree(parent, dist, ra), Tree(parent, dist, rb));
    forall r | 0 <= r < |p'| && p'[r] == r
      ensures s'[r] == |Tree(p', d', r)|
    {
      if r != ra {
        assert r != rb && parent[r] == r;
      }
    }
  }

  /** Linking root `rb` under root `ra` and adding the sizes keeps the state
      well formed, with one root fewer, and fuses the two circuits into
      `ra`'s. */
  lemma LinkStep(parent: seq<nat>, dist: seq<nat>, size: seq<nat>, components: nat, ra: nat, rb: nat)
    requires Forest(parent, dist, size, components)
    requires ra < |parent| && rb < |parent| && ra != rb && parent[ra] == ra && parent[rb] == rb
    ensures components >= 2
    ensures Forest(parent[rb := ra], LinkDist(parent, dist, rb), size[ra := size[ra] + size[rb]], components - 1)
    ensures Fused(parent, dist, parent[rb := ra], LinkDist(parent, dist, rb), ra, rb, ra)
  {
    Link(parent, dist, ra, rb);
    TwoRoots(parent, dist, size, components, ra, rb);
    LinkSizes(parent, dist, size, components, ra, rb);
  }

  /** The effect of `union(a, b)` taking `(p0, d0, s0, c0)` to
      `(p, d, s, c)`: the state stays well formed; it merges exactly when
      `a` and `b` had different roots, and then there is one circuit fewer,
      the two circuits are fused under the root of the larger tree (the one
      of `a` on a tie), whose size is the sum of the two; otherwise the
      circuits and their count are as before. */
  ghost predicate UnionSpec(p0: seq<nat>, d0: seq<nat>, s0: seq<nat>, c0: nat,
                            p: seq<nat>, d: seq<nat>, s: seq<nat>, c: nat, a: nat, b: nat, merged: bool)
    requires Forest(p0, d0, s0, c0) && a < |p0| && b < |p0|
  {
    var ra, rb := Root(p0, d0, a), Root(p0, d0, b);
    && Forest(p, d, s, c) && |p| == |p0|
    && (merged <==> ra != rb)
    && c == (if merged then c0 - 1 else c0)
    && Fused(p0, d0, p, d, ra, rb, Root(p, d, a))
    && (Root(p, d, a) == ra || Root(p, d, a) == rb)
    && (merged ==> s[Root(p, d, a)] == s0[ra] + s0[rb] && (Root(p, d, a) == ra <==> s0[ra] >= s0[rb]))
  }

  /** When `a` and `b` already share a root, compressing paths is all
      `union` does. */
  lemma NoUnionEffect(p0: seq<nat>, p1: seq<nat>, d: seq<nat>, s: seq<nat>, c: nat, a: nat, b: nat)
    requires Forest(p0, d, s, c) && Forest(p1, d, s, c) && |p0| == |p1| && SameCircuits(p0, p1, d)
    requires a < |p0| && b < |p0| && Root(p0, d, a) == Root(p0, d, b)
    ensures UnionSpec(p0, d, s, c, p1, d, s, c, a, b, false)
  {
  }

  /** What `union` does once both roots are found in `p1`, a compression of
      `p0`: the larger of the two trees (the one of `a` on a tie) takes the
      other, the sizes add up and the two circuits fuse. */
  lemma UnionEffect(p0: seq<nat>, p1: seq<nat>, d: seq<nat>, s: seq<nat>, c: nat, a: nat, b: nat, ra: nat, rb: nat)
    requires Forest(p0, d, s, c) && Forest(p1, d, s, c) && |p0| == |p1| && SameCircuits(p0, p1, d)
    requires a < |p0| && b < |p0| && Root(p0, d, a) != Root(p0, d, b)
    requires if s[Root(p0, d, a)] < s[Root(p0, d, b)]
      then ra == Root(p0, d, b) && rb == Root(p0, d, a)
      else ra == Root(p0, d, a) && rb == Root(p0, d, b)
    ensures ra < |s| && rb < |s| && ra < |p1| && rb < |p1| && ra != rb && p1[ra] == ra && p1[rb] == rb && c >= 2
    ensures UnionSpec(p0, d, s, c, p1[rb := ra], LinkDist(p1, d, rb), s[ra := s[ra] + s[rb]], c - 1, a, b, true)
  {
    RootIsSelf(p1, d, ra);
    RootIsSelf(p1, d, rb);
    LinkStep(p1, d, s, c, ra, rb);
    var p', d' := p1[rb := ra], LinkDist(p1, d, rb);
    assert Fused(p0, d, p', d', Root(p0, d, a), Root(p0, d, b), ra) by {
      forall i | 0 <= i < |p0|
        ensures Root(p', d', i) == if Root(p0, d, i) == Root(p0, d, a) || Root(p0, d, i) == Root(p0, d, b) then ra else Root(p0, d, i)
      {
        assert Root(p1, d, i) == Root(p0, d, i);
      }
    }
  }

  /** Having the same circuits is transitive. */
  lemma SameCircuitsTrans(p0: seq<nat>, p1: seq<nat>, p2: seq<nat>, d: seq<nat>)
    requires Ranked(p0, d) && Ranked(p1, d) && Ranked(p2, d) && |p0| == |p1| == |p2|
    requires SameCircuits(p0, p1, d) && SameCircuits(p1, p2, d)
    ensures SameCircuits(p0, p2, d)
  {
  }

  /** The first loop of `find`: follow parent links from `x` to its root. */
  method ClimbToRoot(parent: seq<nat>, ghost dist: seq<nat>, x: nat) returns (root: nat)
    requires Ranked(parent, dist) && x < |parent|
    ensures root == Root(parent, dist, x)
  {
    root := x;
    while parent[root] != root
      invariant root < |parent| && Root(parent, dist, root) == Root(parent, dist, x)
      decreases dist[root]
    {
      root := parent[root];
    }
  }

  /** The second loop of `find`: point every element on the path from `x`
      straight at `root`. */
  method CompressPath(parent: seq<nat>, ghost dist: seq<nat>, ghost size: seq<nat>, ghost components: nat, x: nat, root: nat)
    returns (p: seq<nat>)
    requires Forest(parent, dist, size, components) && x < |parent| && root == Root(parent, dist, x)
    ensures Forest(p, dist, size, components) && |p| == |parent|
    ensures SameCircuits(parent, p, dist)
  {
    p := parent;
    var y: nat := x;
    while p[y] != y
      invariant Forest(p, dist, size, components) && |p| == |parent| && y < |p|
      invariant Root(p, dist, y) == root
      invariant forall i :: 0 <= i < |p| ==> Root(p, dist, i) == Root(parent, dist, i)
      decreases dist[y]
    {
      var next := p[y];
      CompressStep(p, dist, size, components, y);
      p := p[y := root];
      y := next;
    }
  }

  /** `find` on the state `(parent, dist, size, components)`: the root of
      `x`, and the parents after compressing its path. */
  method FindIn(parent: seq<nat>, ghost dist: seq<nat>, ghost size: seq<nat>, ghost components: nat, x: nat)
    returns (root: nat, p: seq<nat>)
    requires Forest(parent, dist, size, components) && x < |parent|
    ensures Forest(p, dist, size, components) && |p| == |parent| && SameCircuits(parent, p, dist)
    ensures root == Root(parent, dist, x) && root < |p| && p[root] == root
  {
    root := ClimbToRoot(parent, dist, x);
    p := CompressPath(parent, dist, size, components, x, root);
    assert Root(p, dist, root) == root;
  }

  /** `union(a, b)` on the state `(parent, dist, size, components)`. */
  method UnionIn(parent: seq<nat>, ghost dist: seq<nat>, size: seq<nat>, components: nat, a: nat, b: nat)
    returns (p: seq<nat>, ghost d: seq<nat>, s: seq<nat>, c: nat, merged: bool)
    requires Forest(parent, dist, size, components) && a < |parent| && b < |parent|
    ensures Forest(p, d, s, c)
    ensures UnionSpec(parent, dist, size, components, p, d, s, c, a, b, merged)
  {
    var ra, pa := FindIn(parent, dist, size, components, a);
    var rb, p1 := FindIn(pa, dist, size, components, b);
    SameCircuitsTrans(parent, pa, p1, dist);
    if ra == rb {
      NoUnionEffect(parent, p1, dist, size, components, a, b);
      return p1, dist, size, components, false;
    }
    if size[ra] < size[rb] {
      ra, rb := rb, ra;
    }
    UnionEffect(parent, p1, dist, size, components, a, b, ra, rb);
    p, d, s, c := p1[rb := ra], LinkDist(p1, dist, rb), size[ra := size[ra] + size[rb]], components - 1;
    merged := true;
  }

  /** The sizes of the trees of the roots below `k`, in index order. */
  ghost function TreeSizes(p: seq<nat>, d: seq<nat>, k: nat): seq<nat>
    requires Ranked(p, d) && k <= |p|
  {
    if k == 0 then [] else TreeSizes(p, d, k - 1) + if p[k - 1] == k - 1 then [|Tree(p, d, k - 1)|] else []
  }

  /** The elements whose root is below `k`. */
  ghost function Covered(p: seq<nat>, d: seq<nat>, k: nat): set<nat>
    requires Ranked(p, d)
  {
    set i | 0 <= i < |p| && Root(p, d, i) < k
  }

  /** The roots below `k`. */
  function RootsBelow(p: seq<nat>, k: nat): set<nat>
  {
    set r | 0 <= r < |p| && r < k && p[r] == r
  }

  /** The sum of a list of counts. */
  function Total(xs: seq<nat>): nat
  {
    if xs == [] then 0 else Total(xs[..|xs| - 1]) + xs[|xs| - 1]
  }

  /** The elements under the roots below `k` grow by the tree of `k - 1`
      when it is a root, and not at all otherwise. */
  lemma CoveredStep(p: seq<nat>, d: seq<nat>, k: nat)
    requires Ranked(p, d) && 0 < k <= |p|
    ensures Covered(p, d, k) == Covered(p, d, k - 1) + (if p[k - 1] == k - 1 then Tree(p, d, k - 1) else {})
    ensures Covered(p, d, k - 1) !! Tree(p, d, k - 1)
  {
  }

  /** The tree sizes of the roots below `k` add up to the elements under
      those roots. */
  lemma {:induction false} TreeSizesTotal(p: seq<nat>, d: seq<nat>, k: nat)
    requires Ranked(p, d) && k <= |p|
    ensures Total(TreeSizes(p, d, k)) == |Covered(p, d, k)|
  {
    if k == 0 {
      assert Covered(p, d, k) == {};
    } else {
      TreeSizesTotal(p, d, k - 1);
      CoveredStep(p, d, k);
      var prev := TreeSizes(p, d, k - 1);
      if p[k - 1] == k - 1 {
        var cur := TreeSizes(p, d, k);
        assert cur == prev + [|Tree(p, d, k - 1)|];
        assert cur[..|cur| - 1] == prev;
        DisjointUnionSize(Covered(p, d, k - 1), Tree(p, d, k - 1));
      } else {
        assert TreeSizes(p, d, k) == prev;
        assert Covered(p, d, k) == Covered(p, d, k - 1);
      }
    }
  }

  /** There is one tree size per root below `k`. */
  lemma TreeSizesLength(p: seq<nat>, d: seq<nat>, k: nat)
    requires Ranked(p, d) && k <= |p|
    ensures |TreeSizes(p, d, k)| == |RootsBelow(p, k)|
  {
    RootListSizes(p, d, k);
    RootListLength(p, k);
  }

  /** The root list names each root below `k` once. */
  lemma {:induction false} RootListLength(p: seq<nat>, k: nat)
    requires k <= |p|
    ensures |RootList(p, k)| == |RootsBelow(p, k)|
  {
    if k == 0 {
      assert RootsBelow(p, 0) == {};
    } else {
      RootListLength(p, k - 1);
      RootsBelowStep(p, k);
    }
  }

  /** Passing index `k - 1` adds one root exactly when it is one. */
  lemma RootsBelowStep(p: seq<nat>, k: nat)
    requires 0 < k <= |p|
    ensures |RootsBelow(p, k)| == |RootsBelow(p, k - 1)| + if p[k - 1] == k - 1 then 1 else 0
  {
    if p[k - 1] == k - 1 {
      assert RootsBelow(p, k) == RootsBelow(p, k - 1) + {k - 1};
    } else {
      assert RootsBelow(p, k) == RootsBelow(p, k - 1);
    }
  }

  /** Taken over all roots: one size per circuit, and the sizes add up to
      the number of elements. */
  lemma AllTreeSizes(p: seq<nat>, d: seq<nat>, s: seq<nat>, c: nat)
    requires Forest(p, d, s, c)
    ensures |TreeSizes(p, d, |p|)| == c && Total(TreeSizes(p, d, |p|)) == |p|
  {
    TreeSizesTotal(p, d, |p|);
    TreeSizesLength(p, d, |p|);
    assert Covered(p, d, |p|) == Range(|p|);
    assert RootsBelow(p, |p|) == RootSet(p);
  }

  /** `component_sizes` on the state `(parent, dist, size, components)`:
      compress every path, then list the size of every root in index order. */
  method ComponentSizesIn(parent: seq<nat>, ghost dist: seq<nat>, size: seq<nat>, ghost components: nat)
    returns (p: seq<nat>, sizes: seq<nat>)
    requires Forest(parent, dist, size, components)
    ensures Forest(p, dist, size, components) && |p| == |parent| && SameCircuits(parent, p, dist)
    ensures sizes == TreeSizes(p, dist, |p|)
    ensures |sizes| == components && Total(sizes) == |parent|
  {
    var n := |parent|;
    p := parent;
    for i := 0 to n
      invariant Forest(p, dist, size, components) && |p| == n && SameCircuits(parent, p, dist)
    {
      var _, next := FindIn(p, dist, size, components, i);
      SameCircuitsTrans(parent, p, next, dist);
      p := next;
    }
    sizes := [];
    for i := 0 to n
      invariant sizes == TreeSizes(p, dist, i)
    {
      TreeSizesStep(p, dist, size, components, i);
      if p[i] == i {
        sizes := sizes + [size[i]];
      }
    }
    AllTreeSizes(p, dist, size, components);
  }

  /** Passing index `i` lists its recorded size exactly when it is a root. */
  lemma TreeSizesStep(p: seq<nat>, d: seq<nat>, s: seq<nat>, c: nat, i: nat)
    requires Forest(p, d, s, c) && i < |p|
    ensures TreeSizes(p, d, i + 1) == TreeSizes(p, d, i) + if p[i] == i then [s[i]] else []
  {
  }

  /** `Dsu`: a disjoint-set forest over the elements `0..n`. */
  class Dsu {
    var parent: seq<nat>
    var size: seq<nat>
    var components: nat
    ghost var dist: seq<nat>

    ghost predicate Valid()
      reads this
    {
      Forest(parent, dist, size, components)
    }

    /** The circuit of `i`, named by its root. */
    ghost function RootOf(i: nat): nat
      reads this
      requires Valid() && i < |parent|
    {
      Root(parent, dist, i)
    }

    /** `Dsu::new`: every element is its own root with size 1. */
    constructor (n: nat)
      ensures Valid() && |parent| == n && components == n
      ensures forall i :: 0 <= i < n ==> parent[i] == i && size[i] == 1
    {
      parent := seq(n, i requires 0 <= i < n => i);
      size := seq(n, i requires 0 <= i < n => 1);
      dist := seq(n, i requires 0 <= i < n => 0);
      components := n;
      new;
      forall r | 0 <= r < n
        ensures Tree(parent, dist, r) == {r}
      {
        assert forall i :: 0 <= i < n ==> Root(parent, dist, i) == i;
      }
      assert RootSet(parent) == Range(n);
    }

    /** `find`: climb to the root of `x`, then point every element on the
        path straight at it. The circuits, sizes and count do not change. */
    method Find(x: nat) returns (root: nat)
      requires Valid() && x < |parent|
      modifies this
      ensures Valid() && |parent| == old(|parent|) && dist == old(dist)
      ensures root < |parent| == |size| && root == old(RootOf(x)) && parent[root] == root
      ensures SameCircuits(old(parent), parent, dist)
      ensures size == old(size) && components == old(components)
    {
      root, parent := FindIn(parent, dist, size, components, x);
    }

    /** `union`: join the circuits of `a` and `b`. When they differ, the
        root of the smaller tree goes under the other root, whose size
        becomes the sum, and there is one circuit fewer; otherwise only the
        paths are compressed. */
    method Union(a: nat, b: nat) returns (merged: bool)
      requires Valid() && a < |parent| && b < |parent|
      modifies this
      ensures Valid()
      ensures UnionSpec(old(parent), old(dist), old(size), old(components), parent, dist, size, components, a, b, merged)
    {
      parent, dist, size, components, merged := UnionIn(parent, dist, size, components, a, b);
    }

    /** `component_sizes`: the size of every circuit, one per root in index
        order; there are `components` of them and they add up to the number
        of elements. */
    method ComponentSizes() returns (sizes: seq<nat>)
      requires Valid()
      modifies this
      ensures Valid() && |parent| == old(|parent|) && dist == old(dist) && SameCircuits(old(parent), parent, dist)
      ensures size == old(size) && components == old(components)
      ensures sizes == TreeSizes(parent, dist, |parent|)
      ensures |sizes| == components && Total(sizes) == |parent|
    {
      parent, sizes := ComponentSizesIn(parent, dist, size, components);
    }
  }

  // ------------------------------------------------------------ the edges

  /** A junction box. */
  datatype Point = Point(x: int, y: int, z: int)

  function Square(v: int): (s: nat)
  {
    if v < 0 then (-v) * (-v) else v * v
  }

  /** `Point::dist2`: the squared Euclidean distance. */
  function Dist2(p: Point, q: Point): nat
  {
    Square(p.x - q.x) + Square(p.y - q.y) + Square(p.z - q.z)
  }

  /** The squared distance is symmetric, and zero exactly between equal
      points. */
  lemma Dist2Metric(p: Point, q: Point)
    ensures Dist2(p, q) == Dist2(q, p)
    ensures Dist2(p, q) == 0 <==> p == q
  {
    SquareFacts(p.x - q.x);
    SquareFacts(p.y - q.y);
    SquareFacts(p.z - q.z);
  }

  lemma SquareFacts(v: int)
    ensures Square(v) == Square(-v)
    ensures Square(v) == 0 <==> v == 0
  {
    if v > 0 {
      assert v * v >= v;
    } else if v < 0 {
      assert (-v) * (-v) >= -v;
    }
  }

  /** A candidate connection between boxes `from < to`. */
  datatype Edge = Edge(from: nat, to: nat, dist2: nat)

  /** `e` joins two boxes of `points`, the first before the second, and
      carries their squared distance. */
  predicate PairEdge(points: seq<Point>, e: Edge)
  {
    e.from < e.to < |points| && e.dist2 == Dist2(points[e.from], points[e.to])
  }

  /** The edges from box `i` to the boxes `i + 1 .. hi`, in order. */
  function RowEdges(points: seq<Point>, i: nat, hi: nat): seq<Edge>
    requires i < |points| && hi <= |points|
  {
    if hi <= i + 1 then [] else RowEdges(points, i, hi - 1) + [Edge(i, hi - 1, Dist2(points[i], points[hi - 1]))]
  }

  /** The edges from the boxes below `k`, row by row. */
  function EdgesBelow(points: seq<Point>, k: nat): seq<Edge>
    requires k <= |points|
  {
    if k == 0 then [] else EdgesBelow(points, k - 1) + RowEdges(points, k - 1, |points|)
  }

  /** Every edge of the boxes. */
  function AllPairs(points: seq<Point>): seq<Edge>
  {
    EdgesBelow(points, |points|)
  }

  /** `a` comes before `b` in the order the loops produce the edges. */
  predicate EdgeBefore(a: Edge, b: Edge)
  {
    a.from < b.from || (a.from == b.from && a.to < b.to)
  }

  predicate Increasing(edges: seq<Edge>)
  {
    forall k, l :: 0 <= k < l < |edges| ==> EdgeBefore(edges[k], edges[l])
  }

  lemma {:induction false} RowEdgesFacts(points: seq<Point>, i: nat, hi: nat)
    requires i < |points| && hi <= |points|
    ensures forall e :: e in RowEdges(points, i, hi) <==> PairEdge(points, e) && e.from == i && e.to < hi
    ensures |RowEdges(points, i, hi)| == if hi <= i + 1 then 0 else hi - i - 1
    ensures Increasing(RowEdges(points, i, hi))
    decreases hi
  {
    if hi > i + 1 {
      RowEdgesFacts(points, i, hi - 1);
    }
  }

  lemma ConcatIncreasing(a: seq<Edge>, b: seq<Edge>)
    requires Increasing(a) && Increasing(b)
    requires forall e, f :: e in a && f in b ==> EdgeBefore(e, f)
    ensures Increasing(a + b)
  {
    forall k, l | 0 <= k < l < |a + b|
      ensures EdgeBefore((a + b)[k], (a + b)[l])
    {
      if k < |a| && l >= |a| {
        assert (a + b)[k] in a && (a + b)[l] in b;
      }
    }
  }

  /** The edges from the boxes below `k` are exactly the pairs whose first
      box is below `k`. */
  lemma {:induction false} EdgesBelowMembers(points: seq<Point>, k: nat)
    requires k <= |points|
    ensures forall e :: e in EdgesBelow(points, k) <==> PairEdge(points, e) && e.from < k
  {
    if k > 0 {
      EdgesBelowMembers(points, k - 1);
      RowEdgesFacts(points, k - 1, |points|);
    }
  }

  /** There are `k * (2n - k - 1) / 2` of them. */
  lemma {:induction false} EdgesBelowCount(points: seq<Point>, k: nat)
    requires k <= |points|
    ensures 2 * |EdgesBelow(points, k)| == k * (2 * |points| - k - 1)
  {
    if k > 0 {
      EdgesBelowCount(points, k - 1);
      RowEdgesFacts(points, k - 1, |points|);
      EdgeCountStep(|points|, k);
    }
  }

  /** They come in increasing order. */
  lemma {:induction false} EdgesBelowIncreasing(points: seq<Point>, k: nat)
    requires k <= |points|
    ensures Increasing(EdgesBelow(points, k))
  {
    if k > 0 {
      EdgesBelowIncreasing(points, k - 1);
      EdgesBelowMembers(points, k - 1);
      RowEdgesFacts(points, k - 1, |points|);
      ConcatIncreasing(EdgesBelow(points, k - 1), RowEdges(points, k - 1, |points|));
    }
  }

  lemma EdgeCountStep(n: int, k: int)
    ensures k * (2 * n - k - 1) == (k - 1) * (2 * n - (k - 1) - 1) + 2 * (n - k)
  {
  }

  /** `all_edges`' result holds one edge per pair `i < j` with its squared
      distance, in increasing order (so no pair twice), `n (n - 1) / 2` in all. */
  lemma AllPairsFacts(points: seq<Point>)
    ensures forall e :: e in AllPairs(points) <==> PairEdge(points, e)
    ensures Increasing(AllPairs(points))
    ensures 2 * |AllPairs(points)| == |points| * (|points| - 1)
  {
    EdgesBelowMembers(points, |points|);
    EdgesBelowCount(points, |points|);
    EdgesBelowIncreasing(points, |points|);
  }

  /** `all_edges`: for every `i`, the edges to every later box. */
  method AllEdges(points: seq<Point>) returns (edges: seq<Edge>)
    ensures edges == AllPairs(points)
  {
    var n := |points|;
    edges := [];
    for i := 0 to n
      invariant edges == EdgesBelow(points, i)
    {
      for j := i + 1 to n
        invariant edges == EdgesBelow(points, i) + RowEdges(points, i, j)
      {
        edges := edges + [Edge(i, j, Dist2(points[i], points[j]))];
      }
    }
  }

  // ------------------------------------------------------------- sorting

  /** The sort key of part 2 and of `select_nth_unstable_by_key`. */
  function DistKey(e: Edge): int
  {
    e.dist2
  }

  /** The sort key of `sort_unstable_by(|a, b| b.cmp(a))`: largest first. */
  function Descending(n: nat): int
  {
    -(n as int)
  }

  // ------------------------------------------------------- circuit labels

  /** Every box in a circuit of its own, labelled by its index. */
  function Singletons(n: nat): (L: seq<nat>)
    ensures |L| == n && forall i :: 0 <= i < n ==> L[i] == i
  {
    seq(n, i requires 0 <= i < n => i)
  }

  /** Connecting `a` and `b` by relabelling: the circuit of `b` takes the
      label of the circuit of `a`. */
  function Join(L: seq<nat>, a: nat, b: nat): (J: seq<nat>)
    ensures |J| == |L|
  {
    if a < |L| && b < |L| then seq(|L|, i requires 0 <= i < |L| => if L[i] == L[b] then L[a] else L[i]) else L
  }

  /** Relabelling fuses the circuits of `a` and `b` and keeps all others. */
  lemma JoinFuses(L: seq<nat>, a: nat, b: nat)
    requires a < |L| && b < |L|
    ensures forall i, j :: 0 <= i < |L| && 0 <= j < |L| ==>
      (Join(L, a, b)[i] == Join(L, a, b)[j] <==>
        L[i] == L[j] || ((L[i] == L[a] || L[i] == L[b]) && (L[j] == L[a] || L[j] == L[b])))
  {
  }

  /** The circuits after connecting `edges` in order, as labels. */
  function Labels(n: nat, edges: seq<Edge>): (L: seq<nat>)
    ensures |L| == n
  {
    if edges == [] then Singletons(n)
    else
      var e := edges[|edges| - 1];
      Join(Labels(n, edges[..|edges| - 1]), e.from, e.to)
  }

  /** How many of `edges` joined two different circuits when connected. */
  function Merges(n: nat, edges: seq<Edge>): nat
  {
    if edges == [] then 0
    else
      var e := edges[|edges| - 1];
      var L := Labels(n, edges[..|edges| - 1]);
      Merges(n, edges[..|edges| - 1]) + if e.from < n && e.to < n && L[e.from] != L[e.to] then 1 else 0
  }

  /** The roots of the forest name the same circuits as the labels. */
  ghost predicate SamePartition(p: seq<nat>, d: seq<nat>, L: seq<nat>)
    requires Ranked(p, d)
  {
    |L| == |p| && forall i, j :: 0 <= i < |p| && 0 <= j < |p| ==> (Root(p, d, i) == Root(p, d, j) <==> L[i] == L[j])
  }

  /** A fresh forest has the circuits of the singleton labels. */
  lemma InitialPartition(p: seq<nat>, d: seq<nat>)
    requires Ranked(p, d) && forall i :: 0 <= i < |p| ==> p[i] == i
    ensures SamePartition(p, d, Singletons(|p|))
  {
    forall i | 0 <= i < |p|
      ensures Root(p, d, i) == i
    {
    }
  }

  /** `union` does on the forest what relabelling does on labels, and
      merges exactly when the labels of `a` and `b` differ. */
  lemma UnionJoin(p0: seq<nat>, d0: seq<nat>, s0: seq<nat>, c0: nat,
                  p: seq<nat>, d: seq<nat>, s: seq<nat>, c: nat, a: nat, b: nat, merged: bool, L: seq<nat>)
    requires Forest(p0, d0, s0, c0) && a < |p0| && b < |p0| && SamePartition(p0, d0, L)
    requires UnionSpec(p0, d0, s0, c0, p, d, s, c, a, b, merged)
    ensures SamePartition(p, d, Join(L, a, b))
    ensures merged <==> L[a] != L[b]
  {
    JoinFuses(L, a, b);
    var ra, rb, w := Root(p0, d0, a), Root(p0, d0, b), Root(p, d, a);
    forall i, j | 0 <= i < |p| && 0 <= j < |p|
      ensures Root(p, d, i) == Root(p, d, j) <==> Join(L, a, b)[i] == Join(L, a, b)[j]
    {
      assert Root(p0, d0, i) == ra <==> L[i] == L[a];
      assert Root(p0, d0, i) == rb <==> L[i] == L[b];
      assert Root(p0, d0, j) == ra <==> L[j] == L[a];
      assert Root(p0, d0, j) == rb <==> L[j] == L[b];
      assert Root(p0, d0, i) == Root(p0, d0, j) <==> L[i] == L[j];
    }
  }

  /** Connecting one more edge extends the labels and the merge count. */
  lemma LabelsSnoc(n: nat, edges: seq<Edge>, i: nat)
    requires i < |edges|
    ensures Labels(n, edges[..i + 1]) == Join(Labels(n, edges[..i]), edges[i].from, edges[i].to)
    ensures Merges(n, edges[..i + 1]) == Merges(n, edges[..i]) +
      var L := Labels(n, edges[..i]);
      if edges[i].from < n && edges[i].to < n && L[edges[i].from] != L[edges[i].to] then 1 else 0
  {
    assert edges[..i + 1][..i] == edges[..i];
  }

  /** The circuit labels in use. */
  ghost function LabelSet(L: seq<nat>): set<nat>
  {
    set i | 0 <= i < |L| :: L[i]
  }

  /** The number of circuits after connecting `edges` in order. */
  ghost function Circuits(n: nat, edges: seq<Edge>): nat
  {
    |LabelSet(Labels(n, edges))|
  }

  /** Relabelling for two boxes in different circuits retires the label of
      `b`'s circuit; otherwise the labels in use stay the same. */
  lemma JoinLabelSet(L: seq<nat>, a: nat, b: nat)
    ensures a < |L| && b < |L| && L[a] != L[b] ==>
      L[b] in LabelSet(L) && LabelSet(Join(L, a, b)) == LabelSet(L) - {L[b]}
    ensures !(a < |L| && b < |L| && L[a] != L[b]) ==> LabelSet(Join(L, a, b)) == LabelSet(L)
  {
    var J := Join(L, a, b);
    if a < |L| && b < |L| {
      if L[a] == L[b] {
        assert J == L;
      } else {
        forall v | v in LabelSet(L) - {L[b]}
          ensures v in LabelSet(J)
        {
          var i :| 0 <= i < |L| && L[i] == v;
          assert J[i] == v;
        }
        assert J[a] == L[a];
      }
    }
  }

  /** Each merge retires one circuit: merges and circuits left add up to
      the number of boxes. */
  lemma {:induction false} MergesCountCircuits(n: nat, edges: seq<Edge>)
    ensures Merges(n, edges) + Circuits(n, edges) == n
  {
    if edges == [] {
      forall v | v in Range(n)
        ensures v in LabelSet(Singletons(n))
      {
        assert Singletons(n)[v] == v;
      }
      assert LabelSet(Singletons(n)) == Range(n);
    } else {
      var k := |edges| - 1;
      MergesCountCircuits(n, edges[..k]);
      LabelsSnoc(n, edges, k);
      assert edges[..k + 1] == edges;
      JoinLabelSet(Labels(n, edges[..k]), edges[k].from, edges[k].to);
    }
  }

  /** Two boxes in one circuit after the first `k` edges are in one circuit
      after all of them: circuits only fuse. */
  lemma {:induction false} StaysConnected(n: nat, edges: seq<Edge>, k: nat, i: nat, j: nat)
    requires k <= |edges| && i < n && j < n
    requires Labels(n, edges[..k])[i] == Labels(n, edges[..k])[j]
    ensures Labels(n, edges)[i] == Labels(n, edges)[j]
    decreases |edges| - k
  {
    if k < |edges| {
      LabelsSnoc(n, edges, k);
      if edges[k].from < n && edges[k].to < n {
        JoinFuses(Labels(n, edges[..k]), edges[k].from, edges[k].to);
      }
      StaysConnected(n, edges, k + 1, i, j);
    } else {
      assert edges[..k] == edges;
    }
  }

  /** Connecting every pair of boxes, in any closest-first order, leaves
      all the boxes in one circuit. */
  lemma AllPairsConnect(points: seq<Point>, order: seq<Edge>)
    requires ClosestFirst(points, order) && |points| >= 1
    ensures Circuits(|points|, order) == 1
    ensures Merges(|points|, order) + 1 == |points|
  {
    var n := |points|;
    var L := Labels(n, order);
    ClosestFirstFacts(points, order);
    forall i | 0 < i < n
      ensures L[i] == L[0]
    {
      var e := Edge(0, i, Dist2(points[0], points[i]));
      assert PairEdge(points, e);
      var q :| 0 <= q < |order| && order[q] == e;
      LabelsSnoc(n, order, q);
      JoinFuses(Labels(n, order[..q]), 0, i);
      StaysConnected(n, order, q + 1, 0, i);
    }
    assert LabelSet(L) == {L[0]};
    MergesCountCircuits(n, order);
  }

  /** The boxes labelled `v`. */
  ghost function Class(L: seq<nat>, v: nat): set<nat>
  {
    set j | 0 <= j < |L| && L[j] == v
  }

  /** `sizes` lists the size of every circuit of `L` once: `reps` holds one
      box of each circuit, and `sizes[t]` counts the circuit of `reps[t]`. */
  ghost predicate ClassSizesBy(L: seq<nat>, reps: seq<nat>, sizes: seq<nat>)
  {
    && |reps| == |sizes|
    && (forall t :: 0 <= t < |reps| ==> reps[t] < |L| && sizes[t] == |Class(L, L[reps[t]])|)
    && (forall t, u :: 0 <= t < u < |reps| ==> L[reps[t]] != L[reps[u]])
    && (forall i :: 0 <= i < |L| ==> exists t :: 0 <= t < |reps| && L[reps[t]] == L[i])
  }

  /** The roots below `k`, in index order. */
  function RootList(p: seq<nat>, k: nat): seq<nat>
    requires k <= |p|
  {
    if k == 0 then [] else RootList(p, k - 1) + if p[k - 1] == k - 1 then [k - 1] else []
  }

  /** The root list holds every root below `k` once, in increasing order. */
  lemma {:induction false} RootListRoots(p: seq<nat>, k: nat)
    requires k <= |p|
    ensures forall t :: 0 <= t < |RootList(p, k)| ==> RootList(p, k)[t] < k && p[RootList(p, k)[t]] == RootList(p, k)[t]
    ensures forall t, u :: 0 <= t < u < |RootList(p, k)| ==> RootList(p, k)[t] < RootList(p, k)[u]
    ensures forall r :: 0 <= r < k && p[r] == r ==> r in RootList(p, k)
  {
    if k > 0 {
      RootListRoots(p, k - 1);
    }
  }

  /** Beside each root of the list stands the size of its tree. */
  lemma {:induction false} RootListSizes(p: seq<nat>, d: seq<nat>, k: nat)
    requires Ranked(p, d) && k <= |p|
    ensures |RootList(p, k)| == |TreeSizes(p, d, k)|
    ensures forall t :: 0 <= t < |RootList(p, k)| ==> TreeSizes(p, d, k)[t] == |Tree(p, d, RootList(p, k)[t])|
  {
    if k > 0 {
      RootListSizes(p, d, k - 1);
      var R0, S0 := RootList(p, k - 1), TreeSizes(p, d, k - 1);
      if p[k - 1] == k - 1 {
        assert RootList(p, k) == R0 + [k - 1] && TreeSizes(p, d, k) == S0 + [|Tree(p, d, k - 1)|];
        SizesSnoc(p, d, R0, S0, k - 1);
      } else {
        assert RootList(p, k) == R0 && TreeSizes(p, d, k) == S0;
      }
    }
  }

  /** Appending a root and its tree's size keeps the lists matched. */
  lemma SizesSnoc(p: seq<nat>, d: seq<nat>, R: seq<nat>, S: seq<nat>, r: nat)
    requires Ranked(p, d) && |R| == |S|
    requires forall t :: 0 <= t < |R| ==> S[t] == |Tree(p, d, R[t])|
    ensures forall t :: 0 <= t < |R + [r]| ==> (S + [|Tree(p, d, r)|])[t] == |Tree(p, d, (R + [r])[t])|
  {
    forall t | 0 <= t < |R| + 1
      ensures (S + [|Tree(p, d, r)|])[t] == |Tree(p, d, (R + [r])[t])|
    {
      if t < |R| {
        assert (R + [r])[t] == R[t] && (S + [|Tree(p, d, r)|])[t] == S[t];
      }
    }
  }

  /** The tree of a root is the circuit of its label. */
  lemma TreeIsClass(p: seq<nat>, d: seq<nat>, L: seq<nat>, r: nat)
    requires Ranked(p, d) && SamePartition(p, d, L) && r < |p| && p[r] == r
    ensures Tree(p, d, r) == Class(L, L[r])
  {
    var T, C := Tree(p, d, r), Class(L, L[r]);
    assert Root(p, d, r) == r;
    forall j | j in T
      ensures j in C
    {
      assert Root(p, d, j) == Root(p, d, r);
    }
    forall j | j in C
      ensures j in T
    {
      assert L[j] == L[r];
    }
  }

  /** Where the root of `i` stands in the root list. */
  lemma RootPosition(p: seq<nat>, d: seq<nat>, i: nat) returns (t: nat)
    requires Ranked(p, d) && i < |p|
    ensures t < |RootList(p, |p|)| && RootList(p, |p|)[t] == Root(p, d, i)
  {
    var reps := RootList(p, |p|);
    RootListRoots(p, |p|);
    var r := Root(p, d, i);
    assert r in reps;
    t :| 0 <= t < |reps| && reps[t] == r;
  }

  /** Every circuit of `L` has its root in the root list. */
  lemma RootListCovers(p: seq<nat>, d: seq<nat>, L: seq<nat>)
    requires Ranked(p, d) && SamePartition(p, d, L)
    ensures forall t :: 0 <= t < |RootList(p, |p|)| ==> RootList(p, |p|)[t] < |L|
    ensures forall i :: 0 <= i < |L| ==> exists t :: 0 <= t < |RootList(p, |p|)| && L[RootList(p, |p|)[t]] == L[i]
  {
    var reps := RootList(p, |p|);
    RootListRoots(p, |p|);
    forall i | 0 <= i < |L|
      ensures exists t :: 0 <= t < |reps| && L[reps[t]] == L[i]
    {
      var t := RootPosition(p, d, i);
      var r := reps[t];
      assert Root(p, d, r) == r;
      assert L[r] == L[i];
    }
  }

  /** The roots of the list lie in different circuits. */
  lemma RootListDistinct(p: seq<nat>, d: seq<nat>, L: seq<nat>)
    requires Ranked(p, d) && SamePartition(p, d, L)
    ensures forall t :: 0 <= t < |RootList(p, |p|)| ==> RootList(p, |p|)[t] < |L|
    ensures forall t, u :: 0 <= t < u < |RootList(p, |p|)| ==> L[RootList(p, |p|)[t]] != L[RootList(p, |p|)[u]]
  {
    var reps := RootList(p, |p|);
    RootListRoots(p, |p|);
    forall t, u | 0 <= t < u < |reps|
      ensures L[reps[t]] != L[reps[u]]
    {
      assert Root(p, d, reps[t]) == reps[t] && Root(p, d, reps[u]) == reps[u];
    }
  }

  /** The sizes `component_sizes` lists are the sizes of the circuits of
      the labels, one per circuit. */
  lemma TreeSizesAreClassSizes(p: seq<nat>, d: seq<nat>, L: seq<nat>)
    requires Ranked(p, d) && SamePartition(p, d, L)
    ensures ClassSizesBy(L, RootList(p, |p|), TreeSizes(p, d, |p|))
  {
    var reps, sizes := RootList(p, |p|), TreeSizes(p, d, |p|);
    RootListRoots(p, |p|);
    RootListSizes(p, d, |p|);
    forall t | 0 <= t < |reps|
      ensures sizes[t] == |Class(L, L[reps[t]])|
    {
      TreeIsClass(p, d, L, reps[t]);
    }
    RootListDistinct(p, d, L);
    RootListCovers(p, d, L);
  }

  // ---------------------------------------------------------------- parts

  /** The edges in the order the insertion sort leaves them: one closest-first order. */
  function SortedPairs(points: seq<Point>): seq<Edge>
  {
    SortBy(AllPairs(points), DistKey)
  }

  /** `order` holds the pairs of `points` as often as the pair list does,
      closest first: an order `sort_unstable_by_key` may leave them in. Among
      pairs at the same distance the order is left open, as the unstable sort
      leaves it. */
  ghost predicate ClosestFirst(points: seq<Point>, order: seq<Edge>)
  {
    multiset(order) == multiset(AllPairs(points)) && SortedBy(order, DistKey)
  }

  /** The insertion sort gives one closest-first order. */
  lemma SortedPairsClosestFirst(points: seq<Point>)
    ensures ClosestFirst(points, SortedPairs(points))
  {
    SortByFacts(AllPairs(points), DistKey);
  }

  /** When no two pairs are at the same distance there is only one
      closest-first order, so the sort's tie-break cannot matter. */
  lemma ClosestFirstUnique(points: seq<Point>, order: seq<Edge>)
    requires ClosestFirst(points, order)
    requires forall e, f :: e in AllPairs(points) && f in AllPairs(points) && e.dist2 == f.dist2 ==> e == f
    ensures order == SortedPairs(points)
  {
    SortedPairsClosestFirst(points);
    forall e | e in order
      ensures e in AllPairs(points)
    {
      assert e in multiset(order);
    }
    SortedUnique(order, SortedPairs(points), DistKey);
  }

  /** A closest-first order lists the edges of the boxes, closest first. */
  lemma ClosestFirstFacts(points: seq<Point>, order: seq<Edge>)
    requires ClosestFirst(points, order)
    ensures forall e :: e in order <==> PairEdge(points, e)
    ensures |order| == |AllPairs(points)|
    ensures forall i, j :: 0 <= i < j < |order| ==> order[i].dist2 <= order[j].dist2
  {
    AllPairsFacts(points);
    assert |multiset(order)| == |multiset(AllPairs(points))|;
    forall e
      ensures e in order <==> e in AllPairs(points)
    {
      assert e in order <==> e in multiset(order);
    }
    forall i, j | 0 <= i < j < |order|
      ensures order[i].dist2 <= order[j].dist2
    {
      assert DistKey(order[i]) <= DistKey(order[j]);
    }
  }

  /** The edges of a closest-first order join boxes of `points`, and there
      are n(n-1)/2 of them. */
  lemma ClosestFirstBounds(points: seq<Point>, order: seq<Edge>)
    requires ClosestFirst(points, order)
    ensures forall e :: e in order ==> e.from < |points| && e.to < |points|
    ensures 2 * |order| == |points| * (|points| - 1)
  {
    ClosestFirstFacts(points, order);
    AllPairsFacts(points);
  }

  lemma PrefixBounds(order: seq<Edge>, k: nat, n: nat)
    requires k <= |order| && forall e :: e in order ==> e.from < n && e.to < n
    ensures forall e :: e in order[..k] ==> e.from < n && e.to < n
  {
    forall e | e in order[..k]
      ensures e.from < n && e.to < n
    {
      var j :| 0 <= j < k && order[..k][j] == e;
      assert order[j] in order;
    }
  }

  /** The `count` closest pairs part 1 connects: `select_nth_unstable_by_key`
      and `truncate` keep `k` of the smallest edges, the first `k` of some
      closest-first order. */
  function Closest(order: seq<Edge>, count: nat): seq<Edge>
  {
    order[..if count < |order| then count else |order|]
  }

  /** The product of a list of sizes. */
  function Product(xs: seq<nat>): nat
  {
    if xs == [] then 1 else xs[0] * Product(xs[1..])
  }

  /** The three largest sizes (fewer when there are fewer circuits). */
  function Largest3(sizes: seq<nat>): seq<nat>
  {
    var desc := SortBy(sizes, Descending);
    desc[..if |desc| < 3 then |desc| else 3]
  }

  /** No size left out of the three largest exceeds one kept. */
  lemma Largest3Facts(sizes: seq<nat>)
    ensures |Largest3(sizes)| == if |sizes| < 3 then |sizes| else 3
    ensures multiset(Largest3(sizes)) <= multiset(sizes)
    ensures forall x, y :: x in Largest3(sizes) && y in multiset(sizes) - multiset(Largest3(sizes)) ==> y <= x
  {
    var desc := SortBy(sizes, Descending);
    SortByFacts(sizes, Descending);
    assert |desc| == |multiset(desc)| == |multiset(sizes)| == |sizes|;
    var m := if |desc| < 3 then |desc| else 3;
    assert desc == desc[..m] + desc[m..];
    assert multiset(desc) == multiset(desc[..m]) + multiset(desc[m..]);
    PrefixDominates(desc, m);
    forall x, y | x in desc[..m] && y in multiset(sizes) - multiset(desc[..m])
      ensures y <= x
    {
      assert y in desc[m..];
    }
  }

  /** In a largest-first order, every element of a prefix is at least every
      element after it. */
  lemma PrefixDominates(desc: seq<nat>, m: nat)
    requires SortedBy(desc, Descending) && m <= |desc|
    ensures forall x, y :: x in desc[..m] && y in desc[m..] ==> y <= x
  {
    forall x, y | x in desc[..m] && y in desc[m..]
      ensures y <= x
    {
      var i :| 0 <= i < m && desc[i] == x;
      var j :| 0 <= j < |desc[m..]| && desc[m..][j] == y;
      assert Descending(desc[i]) <= Descending(desc[m + j]);
    }
  }

  /** One step of the connection loops: connect `e` and keep the forest in
      step with the labels. */
  method Connect(dsu: Dsu, e: Edge, ghost n: nat, ghost edges: seq<Edge>, ghost i: nat) returns (merged: bool)
    requires dsu.Valid() && |dsu.parent| == n && i < |edges| && e == edges[i]
    requires e.from < n && e.to < n
    requires SamePartition(dsu.parent, dsu.dist, Labels(n, edges[..i]))
    requires dsu.components + Merges(n, edges[..i]) == n
    modifies dsu
    ensures dsu.Valid() && |dsu.parent| == n
    ensures SamePartition(dsu.parent, dsu.dist, Labels(n, edges[..i + 1]))
    ensures dsu.components + Merges(n, edges[..i + 1]) == n
    ensures Merges(n, edges[..i + 1]) == Merges(n, edges[..i]) + if merged then 1 else 0
  {
    ghost var p0, d0, s0, c0 := dsu.parent, dsu.dist, dsu.size, dsu.components;
    merged := dsu.Union(e.from, e.to);
    UnionJoin(p0, d0, s0, c0, dsu.parent, dsu.dist, dsu.size, dsu.components, e.from, e.to, merged, Labels(n, edges[..i]));
    LabelsSnoc(n, edges, i);
  }

  /** The loop of part 1: connect every edge of `edges`, in order, on a
      fresh forest. */
  method ConnectAll(dsu: Dsu, edges: seq<Edge>)
    requires dsu.Valid() && forall i :: 0 <= i < |dsu.parent| ==> dsu.parent[i] == i
    requires forall e :: e in edges ==> e.from < |dsu.parent| && e.to < |dsu.parent|
    requires dsu.components == |dsu.parent|
    modifies dsu
    ensures dsu.Valid() && |dsu.parent| == old(|dsu.parent|)
    ensures SamePartition(dsu.parent, dsu.dist, Labels(|dsu.parent|, edges))
    ensures dsu.components + Merges(|dsu.parent|, edges) == |dsu.parent|
  {
    ghost var n := |dsu.parent|;
    InitialPartition(dsu.parent, dsu.dist);
    assert edges[..0] == [];
    for i := 0 to |edges|
      invariant dsu.Valid() && |dsu.parent| == n
      invariant SamePartition(dsu.parent, dsu.dist, Labels(n, edges[..i]))
      invariant dsu.components + Merges(n, edges[..i]) == n
    {
      assert edges[i] in edges;
      var _ := Connect(dsu, edges[i], n, edges, i);
    }
    assert edges[..|edges|] == edges;
  }

  /** `short_connections_product`: connect the `k = min(count, #edges)`
      closest pairs and multiply the sizes of the three largest circuits.
      `order` is the order the selection leaves the edges in. With `k = 0`
      the source's `k - 1` underflows; that is `None` here. */
  method ShortConnectionsProduct(points: seq<Point>, count: nat, order: seq<Edge>) returns (r: Option<nat>, ghost reps: seq<nat>, ghost sizes: seq<nat>)
    requires ClosestFirst(points, order)
    ensures r.None? <==> count == 0 || |points| < 2
    ensures r.Some? ==>
      var n, chosen := |points|, Closest(order, count);
      && ClassSizesBy(Labels(n, chosen), reps, sizes)
      && |sizes| + Merges(n, chosen) == n
      && Total(sizes) == n
      && r.value == Product(Largest3(sizes))
  {
    var n := |points|;
    ClosestFirstBounds(points, order);
    var k := if count < |order| then count else |order|;
    PairCount(n);
    if k == 0 {
      return None, [], [];
    }
    PrefixBounds(order, k, n);
    var product;
    product, reps, sizes := ConnectedProduct(n, order[..k]);
    r := Some(product);
  }

  /** The work of part 1 once the edges are chosen: connect them on a fresh
      forest of `n` boxes and multiply the three largest circuit sizes. */
  method ConnectedProduct(n: nat, chosen: seq<Edge>) returns (product: nat, ghost reps: seq<nat>, ghost sizes: seq<nat>)
    requires forall e :: e in chosen ==> e.from < n && e.to < n
    ensures ClassSizesBy(Labels(n, chosen), reps, sizes)
    ensures |sizes| + Merges(n, chosen) == n
    ensures Total(sizes) == n
    ensures product == Product(Largest3(sizes))
  {
    var dsu := new Dsu(n);
    ConnectAll(dsu, chosen);
    var all := dsu.ComponentSizes();
    TreeSizesAreClassSizes(dsu.parent, dsu.dist, Labels(n, chosen));
    reps, sizes := RootList(dsu.parent, n), all;
    var desc := SortBy(all, Descending);
    var top := desc[..if |desc| < 3 then |desc| else 3];
    product := Product(top);
  }

  /** Fewer than two boxes are exactly the counts without pairs. */
  lemma PairCount(n: nat)
    ensures n < 2 <==> n * (n - 1) == 0
  {
    if n == 0 {
      assert n * (n - 1) == 0;
    } else if n == 1 {
      assert n * (n - 1) == 0;
    } else {
      MulPositive(n, n - 1);
    }
  }

  lemma MulPositive(a: int, b: int)
    requires a > 0 && b > 0
    ensures a * b > 0
  {
  }

  /** More edges never undo a merge. */
  lemma {:induction false} MergesMonotone(n: nat, edges: seq<Edge>, i: nat)
    requires i <= |edges|
    ensures Merges(n, edges[..i]) <= Merges(n, edges)
    decreases |edges|
  {
    if i < |edges| {
      var prev := edges[..|edges| - 1];
      assert prev[..i] == edges[..i];
      assert Merges(n, prev) <= Merges(n, edges);
      MergesMonotone(n, prev, i);
    } else {
      assert edges[..i] == edges;
    }
  }

  /** Every forest over at least one box has a root. */
  lemma ForestHasRoot(p: seq<nat>, d: seq<nat>, s: seq<nat>, c: nat)
    requires Forest(p, d, s, c) && |p| > 0
    ensures c >= 1
  {
    assert Root(p, d, 0) in RootSet(p);
  }

  /** `last` is the last of the first `i` edges that merged two circuits
      (at index `m`), with at least two circuits left before it, or `None`
      when none of them merged. */
  ghost predicate LastMerge(n: nat, edges: seq<Edge>, i: nat, last: Option<Edge>, m: nat)
    requires i <= |edges|
  {
    && (last.None? <==> Merges(n, edges[..i]) == 0)
    && (last.Some? ==>
      && m < i && last.value == edges[m]
      && Merges(n, edges[..m + 1]) == Merges(n, edges[..m]) + 1
      && Merges(n, edges[..m]) + 2 <= n
      && Merges(n, edges[..i]) == Merges(n, edges[..m + 1]))
  }

  lemma LastMergeStep(n: nat, edges: seq<Edge>, i: nat, last: Option<Edge>, m: nat, merged: bool)
    requires i < |edges| && LastMerge(n, edges, i, last, m)
    requires Merges(n, edges[..i + 1]) == Merges(n, edges[..i]) + if merged then 1 else 0
    requires merged ==> Merges(n, edges[..i + 1]) + 1 <= n
    ensures merged ==> LastMerge(n, edges, i + 1, Some(edges[i]), i)
    ensures !merged ==> LastMerge(n, edges, i + 1, last, m)
  {
  }

  /** One step of part 2's loop: connect edge `i` and remember it when it
      merged two circuits. */
  method ConnectTracked(dsu: Dsu, e: Edge, ghost n: nat, ghost edges: seq<Edge>, i: nat, last: Option<Edge>, ghost m: nat)
    returns (merged: bool, last': Option<Edge>, ghost m': nat, next: nat)
    requires i < |edges| && e == edges[i] && e.from < n && e.to < n
    requires dsu.Valid() && |dsu.parent| == n
    requires SamePartition(dsu.parent, dsu.dist, Labels(n, edges[..i]))
    requires dsu.components + Merges(n, edges[..i]) == n
    requires LastMerge(n, edges, i, last, m)
    modifies dsu
    ensures next == i + 1 && dsu.Valid() && |dsu.parent| == n
    ensures SamePartition(dsu.parent, dsu.dist, Labels(n, edges[..next]))
    ensures dsu.components + Merges(n, edges[..next]) == n
    ensures LastMerge(n, edges, next, last', m')
    ensures merged ==> last' == Some(e) && m' == i
  {
    merged := Connect(dsu, e, n, edges, i);
    if merged {
      ForestHasRoot(dsu.parent, dsu.dist, dsu.size, dsu.components);
    }
    LastMergeStep(n, edges, i, last, m, merged);
    if merged {
      last', m' := Some(e), i;
    } else {
      last', m' := last, m;
    }
    next := i + 1;
  }

  /** The loop of part 2: connect the edges in order on a fresh forest,
      remembering the last one that merged two circuits, until one circuit
      is left. */
  method ConnectUntilOne(dsu: Dsu, edges: seq<Edge>) returns (last: Option<Edge>, ghost m: nat)
    requires dsu.Valid() && forall i :: 0 <= i < |dsu.parent| ==> dsu.parent[i] == i
    requires forall e :: e in edges ==> e.from < |dsu.parent| && e.to < |dsu.parent|
    requires dsu.components == |dsu.parent|
    modifies dsu
    ensures IsLastMerge(old(|dsu.parent|), edges, last, m)
  {
    ghost var n := |dsu.parent|;
    InitialPartition(dsu.parent, dsu.dist);
    assert edges[..0] == [];
    last := None;
    m := 0;
    var i := 0;
    var done := false;
    while i < |edges| && !done
      invariant 0 <= i <= |edges|
      invariant dsu.Valid() && |dsu.parent| == n
      invariant SamePartition(dsu.parent, dsu.dist, Labels(n, edges[..i]))
      invariant dsu.components + Merges(n, edges[..i]) == n
      invariant LastMerge(n, edges, i, last, m)
      invariant done ==> last.Some? && Merges(n, edges[..i]) + 1 == n
    {
      assert edges[i] in edges;
      var merged;
      merged, last, m, i := ConnectTracked(dsu, edges[i], n, edges, i, last, m);
      done := merged && dsu.components == 1;
    }
    LastMergeFinal(n, edges, i, last, m, done);
  }

  /** `last`, pair `m` of `edges`, is the pair part 2 reports for `n` boxes:
      None exactly when no pair merges anything; otherwise connecting it
      merged two circuits, at least two were left before it, and after it
      either one circuit remains or no later pair merges anything. */
  ghost predicate IsLastMerge(n: nat, edges: seq<Edge>, last: Option<Edge>, m: nat)
  {
    && (last.None? <==> Merges(n, edges) == 0)
    && (last.Some? ==>
      && m < |edges| && last.value == edges[m]
      && Merges(n, edges[..m + 1]) == Merges(n, edges[..m]) + 1
      && Merges(n, edges[..m]) + 2 <= n
      && (Merges(n, edges[..m + 1]) + 1 == n || Merges(n, edges[..m + 1]) == Merges(n, edges)))
  }

  /** When part 2's loop stops, either because one circuit is left or because
      the pairs ran out, the remembered pair is the last merge. */
  lemma LastMergeFinal(n: nat, edges: seq<Edge>, i: nat, last: Option<Edge>, m: nat, done: bool)
    requires i <= |edges| && LastMerge(n, edges, i, last, m)
    requires done ==> last.Some? && Merges(n, edges[..i]) + 1 == n
    requires !done ==> i == |edges|
    ensures IsLastMerge(n, edges, last, m)
  {
    if done {
      MergesMonotone(n, edges, i);
    } else {
      assert edges[..i] == edges;
    }
  }

  /** `solve_part_2`: connect pairs closest first until one circuit is left
      and multiply the x coordinates of the last pair that joined two
      circuits. With fewer than two boxes there is no such pair and the
      source's `unwrap` panics; that is `None` here. Otherwise the result
      comes from the pair `m` of `order`, the order the sort leaves the
      edges in: two circuits were left before it and one after it, so it
      is the pair that joined the final two circuits. */
  method SolvePart2(points: seq<Point>, order: seq<Edge>) returns (r: Option<int>, ghost m: nat)
    requires ClosestFirst(points, order)
    ensures var n := |points|;
      && (r.None? <==> n < 2)
      && (r.Some? ==>
        && m < |order| && order[m].from < n && order[m].to < n
        && r.value == points[order[m].from].x * points[order[m].to].x
        && Circuits(n, order[..m]) == 2
        && Circuits(n, order[..m + 1]) == 1)
  {
    var n := |points|;
    ClosestFirstBounds(points, order);
    var dsu := new Dsu(n);
    var last;
    last, m := ConnectUntilOne(dsu, order);
    if n >= 1 {
      AllPairsConnect(points, order);
    }
    match last
    case None =>
      r := None;
    case Some(e) =>
      assert order[m] in order;
      MergesCountCircuits(n, order[..m]);
      MergesCountCircuits(n, order[..m + 1]);
      r := Some(points[e.from].x * points[e.to].x);
  }

  // ---------------------------------------------------------------- input

  /** One line of the input: the first three comma-separated fields, each a
      signed integer; further fields are ignored. `None` where the source's
      `unwrap` panics (fewer than three fields, a field that is no number). */
  function ParsePoint(line: string): (r: Option<Point>)
    ensures r.Some? ==> |Split(Trim(line), ',')| >= 3
  {
    var f := Split(Trim(line), ',');
    if |f| < 3 then None
    else match (ParseSigned(f[0]), ParseSigned(f[1]), ParseSigned(f[2]))
      case (Some(x), Some(y), Some(z)) => Some(Point(x, y, z))
      case _ => None
  }

  function ParsePoints(lines: seq<string>): (r: Option<seq<Point>>)
    ensures r.Some? ==> |r.value| == |lines|
  {
    if lines == [] then Some([])
    else match (ParsePoint(lines[0]), ParsePoints(lines[1..]))
      case (Some(p), Some(ps)) => Some([p] + ps)
      case _ => None
  }

  /** `Day::create`: one box per line of the trimmed input. */
  function Create(input: string): Option<seq<Point>>
  {
    ParsePoints(Lines(Trim(input)))
  }

  /** The line that writes a box's position. */
  function ShowPoint(p: Point): string
  {
    ShowSigned(p.x) + "," + ShowSigned(p.y) + "," + ShowSigned(p.z)
  }

  function ShowPoints(points: seq<Point>): seq<string>
  {
    seq(|points|, k requires 0 <= k < |points| => ShowPoint(points[k]))
  }

  /** A written number holds neither separator. */
  lemma ShowSignedNoSeparator(i: int)
    ensures ',' !in ShowSigned(i) && '\n' !in ShowSigned(i)
  {
    var s := ShowSigned(i);
    assert forall j :: 0 <= j < |s| ==> s[j] != ',' && s[j] != '\n';
  }

  /** A written position is one plain line with nothing to trim. */
  lemma ShowPointPlain(p: Point)
    ensures var line := ShowPoint(p);
      && line != [] && '\n' !in line && StripCr(line) == line
      && !IsWhitespace(line[0]) && !IsWhitespace(line[|line| - 1])
  {
    var a, b, c := ShowSigned(p.x), ShowSigned(p.y), ShowSigned(p.z);
    var line := ShowPoint(p);
    ShowSignedNoSeparator(p.x);
    ShowSignedNoSeparator(p.y);
    ShowSignedNoSeparator(p.z);
    assert line == a + ([','] + b + [','] + c);
    assert line[0] == a[0];
    assert line[|line| - 1] == c[|c| - 1];
    SignCharPlain(a[0]);
    SignCharPlain(c[|c| - 1]);
  }

  /** A digit or a minus sign is neither white space nor a carriage return. */
  lemma SignCharPlain(ch: char)
    requires IsDigit(ch) || ch == '-'
    ensures !IsWhitespace(ch) && ch != '\r'
  {
  }

  /** A written position parses back to the box. */
  lemma ParseShowPoint(p: Point)
    ensures ParsePoint(ShowPoint(p)) == Some(p)
  {
    var a, b, c := ShowSigned(p.x), ShowSigned(p.y), ShowSigned(p.z);
    var line := ShowPoint(p);
    ShowPointPlain(p);
    TrimNoEdges(line);
    ShowSignedNoSeparator(p.x);
    ShowSignedNoSeparator(p.y);
    ShowSignedNoSeparator(p.z);
    assert line == a + [','] + (b + [','] + c);
    SplitJoin(a, ',', b + [','] + c);
    SplitJoin(b, ',', c);
    assert Split(c, ',') == [c];
    ParseShowSigned(p.x);
    ParseShowSigned(p.y);
    ParseShowSigned(p.z);
  }

  lemma {:induction false} ParsePointsShow(points: seq<Point>, ls: seq<string>)
    requires |ls| == |points| && forall k :: 0 <= k < |ls| ==> ls[k] == ShowPoint(points[k])
    ensures ParsePoints(ls) == Some(points)
  {
    if points != [] {
      ParseShowPoint(points[0]);
      assert ParsePoint(ls[0]) == Some(points[0]);
      forall k | 0 <= k < |ls| - 1
        ensures ls[1..][k] == ShowPoint(points[1..][k])
      {
        assert ls[1..][k] == ls[k + 1] && points[1..][k] == points[k + 1];
      }
      ParsePointsShow(points[1..], ls[1..]);
      assert [points[0]] + points[1..] == points;
    }
  }

  lemma ShowPointsPlain(points: seq<Point>)
    ensures PlainLines(ShowPoints(points))
  {
    var ls := ShowPoints(points);
    forall k | 0 <= k < |ls|
      ensures ls[k] != [] && '\n' !in ls[k] && StripCr(ls[k]) == ls[k]
    {
      ShowPointPlain(points[k]);
    }
  }

  /** The written positions come back out of the trimmed text line by line. */
  lemma LinesShowPoints(points: seq<Point>)
    requires points != []
    ensures Lines(Trim(JoinLines(ShowPoints(points)))) == ShowPoints(points)
  {
    var ls := ShowPoints(points);
    ShowPointsPlain(points);
    var k := |points| - 1;
    ShowPointPlain(points[0]);
    ShowPointPlain(points[k]);
    assert |ls| == |points|;
    assert ls[0] == ShowPoint(points[0]);
    assert ls[k] == ShowPoint(points[k]);
    LinesTrimJoinLines(ls);
  }

  /** Parsing the written positions, one per line, gives the boxes back. */
  lemma CreateShowPoints(points: seq<Point>)
    ensures Create(JoinLines(ShowPoints(points))) == Some(points)
  {
    var ls := ShowPoints(points);
    if points == [] {
      assert JoinLines(ls) == [];
    } else {
      LinesShowPoints(points);
      ParsePointsShow(points, ls);
    }
  }
}
