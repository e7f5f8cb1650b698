/** Day 12: packing polyomino presents into rectangular regions. A region's
    cells are numbered `y * w + x` and kept as bits of 64-bit words; a
    placement is the list of (word index, mask) chunks one present covers.
    A 64-bit word is modelled by the set of its set bits: `|` is union, `&`
    intersection, `^` symmetric difference, `1 << b` the singleton `{b}`. */
module Day12 {
  import opened Text
  import Sorting

  /** A `u64`, as the positions of its set bits. */
  type Word = s: set<nat> | forall b :: b in s ==> b < 64

  /** `a ^ b`. */
  function Xor(a: Word, b: Word): Word
  {
    (a - b) + (b - a)
  }

  /** `Placement`: per word touched, the word's index and the bits set in it. */
  datatype Placement = Placement(chunks: seq<(nat, Word)>)

  /** Every chunk names a word of a grid of `words` words. */
  predicate InGrid(p: Placement, words: nat)
  {
    forall k :: 0 <= k < |p.chunks| ==> p.chunks[k].0 < words
  }

  /** No two chunks name the same word. */
  predicate DistinctWords(chunks: seq<(nat, Word)>)
  {
    forall k, l :: 0 <= k < l < |chunks| ==> chunks[k].0 != chunks[l].0
  }

  predicate WellFormed(p: Placement, words: nat)
  {
    InGrid(p, words) && DistinctWords(p.chunks)
  }

  /** Every placement of every present type is well formed for the grid. */
  predicate AllWellFormed(ps: seq<seq<Placement>>, words: nat)
  {
    forall t, j :: 0 <= t < |ps| && 0 <= j < |ps[t]| ==> WellFormed(ps[t][j], words)
  }

  /** `fits`: no chunk's mask meets a set bit of the word it names. */
  predicate Fits(occ: seq<Word>, p: Placement)
    requires InGrid(p, |occ|)
  {
    forall k :: 0 <= k < |p.chunks| ==> occ[p.chunks[k].0] * p.chunks[k].1 == {}
  }

  /** The bits the chunks set in word `i`: the union of the masks naming it. */
  function MaskAt(chunks: seq<(nat, Word)>, i: nat): Word
  {
    if chunks == [] then {}
    else MaskAt(chunks[..|chunks| - 1], i) + (if chunks[|chunks| - 1].0 == i then chunks[|chunks| - 1].1 else {})
  }

  /** What repeated `^=` of the chunks does to word `i`. */
  function FlipAt(chunks: seq<(nat, Word)>, i: nat): Word
  {
    if chunks == [] then {}
    else Xor(FlipAt(chunks[..|chunks| - 1], i), if chunks[|chunks| - 1].0 == i then chunks[|chunks| - 1].1 else {})
  }

  /** The grid after `apply`: each word ORed with the placement's mask for it. */
  function ApplyWords(occ: seq<Word>, p: Placement): (r: seq<Word>)
    ensures |r| == |occ|
  {
    seq(|occ|, i requires 0 <= i < |occ| => occ[i] + MaskAt(p.chunks, i))
  }

  /** The grid after `unapply`: each word XORed with the placement's bits for it. */
  function UnapplyWords(occ: seq<Word>, p: Placement): (r: seq<Word>)
    ensures |r| == |occ|
  {
    seq(|occ|, i requires 0 <= i < |occ| => Xor(occ[i], FlipAt(p.chunks, i)))
  }

  /** A word no chunk names gets no bits. */
  lemma {:induction false} MaskOutside(chunks: seq<(nat, Word)>, i: nat)
    requires forall k :: 0 <= k < |chunks| ==> chunks[k].0 != i
    ensures MaskAt(chunks, i) == {} && FlipAt(chunks, i) == {}
  {
    if chunks != [] {
      MaskOutside(chunks[..|chunks| - 1], i);
    }
  }

  /** Only the words a placement names change under `apply` or `unapply`. */
  lemma OnlyNamedWordsChange(occ: seq<Word>, p: Placement, i: nat)
    requires i < |occ|
    requires forall k :: 0 <= k < |p.chunks| ==> p.chunks[k].0 != i
    ensures ApplyWords(occ, p)[i] == occ[i] && UnapplyWords(occ, p)[i] == occ[i]
  {
    MaskOutside(p.chunks, i);
  }

  /** With distinct chunk words, XOR and OR of the masks agree. */
  lemma {:induction false} FlipIsMask(chunks: seq<(nat, Word)>, i: nat)
    requires DistinctWords(chunks)
    ensures FlipAt(chunks, i) == MaskAt(chunks, i)
  {
    if chunks != [] {
      var init := chunks[..|chunks| - 1];
      FlipIsMask(init, i);
      if chunks[|chunks| - 1].0 == i {
        MaskOutside(init, i);
      }
    }
  }

  /** The chunks meet the grid exactly when some word meets their union mask. */
  lemma {:induction false} MeetsMask(occ: seq<Word>, chunks: seq<(nat, Word)>)
    requires forall k :: 0 <= k < |chunks| ==> chunks[k].0 < |occ|
    ensures (forall k :: 0 <= k < |chunks| ==> occ[chunks[k].0] * chunks[k].1 == {})
        <==> (forall i :: 0 <= i < |occ| ==> occ[i] * MaskAt(chunks, i) == {})
  {
    if chunks != [] {
      MeetsMask(occ, chunks[..|chunks| - 1]);
    }
  }

  /** `fits` holds exactly when no word of the grid shares a set bit with the
      placement's mask for that word. */
  lemma FitsIffDisjoint(occ: seq<Word>, p: Placement)
    requires InGrid(p, |occ|)
    ensures Fits(occ, p) <==> forall i :: 0 <= i < |occ| ==> occ[i] * MaskAt(p.chunks, i) == {}
  {
    MeetsMask(occ, p.chunks);
  }

  /** `unapply` after `apply` of a fitting placement restores the grid. */
  lemma ApplyUnapply(occ: seq<Word>, p: Placement)
    requires WellFormed(p, |occ|) && Fits(occ, p)
    ensures UnapplyWords(ApplyWords(occ, p), p) == occ
  {
    FitsIffDisjoint(occ, p);
    forall i | 0 <= i < |occ|
      ensures UnapplyWords(ApplyWords(occ, p), p)[i] == occ[i]
    {
      FlipIsMask(p.chunks, i);
    }
  }

  /** Two placements that fit one after the other fit in either order, and
      the grid they leave does not depend on the order. */
  lemma {:induction false} Swap(occ: seq<Word>, p: Placement, q: Placement)
    requires InGrid(p, |occ|) && InGrid(q, |occ|)
    requires Fits(occ, q) && Fits(ApplyWords(occ, q), p)
    ensures Fits(occ, p) && Fits(ApplyWords(occ, p), q)
    ensures ApplyWords(ApplyWords(occ, p), q) == ApplyWords(ApplyWords(occ, q), p)
  {
    FitsIffDisjoint(occ, q);
    FitsIffDisjoint(ApplyWords(occ, q), p);
    var op, oq := ApplyWords(occ, p), ApplyWords(occ, q);
    forall i | 0 <= i < |occ|
      ensures occ[i] * MaskAt(p.chunks, i) == {} && op[i] * MaskAt(q.chunks, i) == {}
      ensures ApplyWords(op, q)[i] == ApplyWords(oq, p)[i]
    {
    }
    FitsIffDisjoint(occ, p);
    FitsIffDisjoint(op, q);
  }

  /** `apply`: ORs each chunk's mask into the word it names, in place. */
  method Apply(occ: array<Word>, p: Placement)
    requires InGrid(p, occ.Length)
    modifies occ
    ensures occ[..] == ApplyWords(old(occ[..]), p)
  {
    ghost var o := occ[..];
    for k := 0 to |p.chunks|
      invariant forall i :: 0 <= i < occ.Length ==> occ[i] == o[i] + MaskAt(p.chunks[..k], i)
    {
      var (wi, m) := p.chunks[k];
      occ[wi] := occ[wi] + m;
      assert p.chunks[..k + 1][..k] == p.chunks[..k];
    }
    assert p.chunks[..|p.chunks|] == p.chunks;
  }

  /** `unapply`: XORs each chunk's mask into the word it names, in place. */
  method Unapply(occ: array<Word>, p: Placement)
    requires InGrid(p, occ.Length)
    modifies occ
    ensures occ[..] == UnapplyWords(old(occ[..]), p)
  {
    ghost var o := occ[..];
    for k := 0 to |p.chunks|
      invariant forall i :: 0 <= i < occ.Length ==> occ[i] == Xor(o[i], FlipAt(p.chunks[..k], i))
    {
      var (wi, m) := p.chunks[k];
      occ[wi] := Xor(occ[wi], m);
      assert p.chunks[..k + 1][..k] == p.chunks[..k];
    }
    assert p.chunks[..|p.chunks|] == p.chunks;
  }

  /** Number of pieces still to place. */
  function Total(rem: seq<nat>): nat
  {
    if rem == [] then 0 else Total(rem[..|rem| - 1]) + rem[|rem| - 1]
  }

  lemma {:induction false} TotalUpdate(rem: seq<nat>, t: nat, v: nat)
    requires t < |rem|
    ensures Total(rem[t := v]) == Total(rem) - rem[t] + v
  {
    if t < |rem| - 1 {
      assert rem[t := v][..|rem| - 1] == rem[..|rem| - 1][t := v];
      TotalUpdate(rem[..|rem| - 1], t, v);
    } else {
      assert rem[t := v][..|rem| - 1] == rem[..|rem| - 1];
    }
  }

  /** A positive total has a type with pieces left. */
  lemma {:induction false} TotalPositive(rem: seq<nat>) returns (t: nat)
    requires Total(rem) > 0
    ensures t < |rem| && rem[t] > 0
  {
    if rem[|rem| - 1] > 0 {
      t := |rem| - 1;
    } else {
      t := TotalPositive(rem[..|rem| - 1]);
    }
  }

  /** The counts after one more piece of type `t` is placed. */
  function Take(rem: seq<nat>, t: nat): (r: seq<nat>)
    requires t < |rem| && rem[t] > 0
    ensures |r| == |rem| && Total(r) == Total(rem) - 1
  {
    TotalUpdate(rem, t, rem[t] - 1);
    rem[t := rem[t] - 1]
  }

  /** The pieces counted by `rem` can be placed, one fitting placement at a
      time, onto the grid `occ`, type `t` choosing among the placements `ps[t]`. */
  ghost predicate Packable(ps: seq<seq<Placement>>, occ: seq<Word>, rem: seq<nat>)
    requires |rem| == |ps| && AllWellFormed(ps, |occ|)
    decreases Total(rem)
  {
    Total(rem) == 0 ||
    exists t, j :: 0 <= t < |rem| && rem[t] > 0 && 0 <= j < |ps[t]| && Fits(occ, ps[t][j])
      && Packable(ps, ApplyWords(occ, ps[t][j]), Take(rem, t))
  }

  /** Placing one fitting piece and packing the rest packs everything. */
  lemma PackableStep(ps: seq<seq<Placement>>, occ: seq<Word>, rem: seq<nat>, u: nat, i: nat)
    requires |rem| == |ps| && AllWellFormed(ps, |occ|)
    requires u < |rem| && rem[u] > 0 && i < |ps[u]| && Fits(occ, ps[u][i])
    requires Packable(ps, ApplyWords(occ, ps[u][i]), Take(rem, u))
    ensures Packable(ps, occ, rem)
  {
  }

  /** The first piece of a packing that is not already complete. */
  lemma PackableFirst(ps: seq<seq<Placement>>, occ: seq<Word>, rem: seq<nat>) returns (u: nat, i: nat)
    requires |rem| == |ps| && AllWellFormed(ps, |occ|)
    requires Packable(ps, occ, rem) && Total(rem) > 0
    ensures u < |rem| && rem[u] > 0 && i < |ps[u]| && Fits(occ, ps[u][i])
    ensures Packable(ps, ApplyWords(occ, ps[u][i]), Take(rem, u))
  {
    u, i :| 0 <= u < |rem| && rem[u] > 0 && 0 <= i < |ps[u]| && Fits(occ, ps[u][i])
      && Packable(ps, ApplyWords(occ, ps[u][i]), Take(rem, u));
  }

  lemma TakeCommutes(rem: seq<nat>, t: nat, u: nat)
    requires t < |rem| && u < |rem| && t != u && rem[t] > 0 && rem[u] > 0
    ensures Take(rem, t)[u] > 0 && Take(rem, u)[t] > 0
    ensures Take(Take(rem, u), t) == Take(Take(rem, t), u)
  {
  }

  /** Any type with pieces left can go first: the order in which pieces are
      placed does not matter, which is what lets the search branch on one type. */
  lemma {:induction false} AnyTypeFirst(ps: seq<seq<Placement>>, occ: seq<Word>, rem: seq<nat>, t: nat) returns (j: nat)
    requires |rem| == |ps| && AllWellFormed(ps, |occ|)
    requires t < |rem| && rem[t] > 0 && Packable(ps, occ, rem)
    ensures j < |ps[t]| && Fits(occ, ps[t][j]) && Packable(ps, ApplyWords(occ, ps[t][j]), Take(rem, t))
    decreases Total(rem)
  {
    TotalUpdate(rem, t, rem[t] - 1);
    var u, i := PackableFirst(ps, occ, rem);
    if u == t {
      return i;
    }
    var q := ps[u][i];
    TakeCommutes(rem, t, u);
    j := AnyTypeFirst(ps, ApplyWords(occ, q), Take(rem, u), t);
    var p := ps[t][j];
    Swap(occ, p, q);
    PackableStep(ps, ApplyWords(occ, p), Take(rem, t), u, i);
  }

  /** If no fitting placement of a type with pieces left leads to a packing,
      there is none: branching on one type loses no solution. */
  lemma Exhausted(ps: seq<seq<Placement>>, occ: seq<Word>, rem: seq<nat>, t: nat)
    requires |rem| == |ps| && AllWellFormed(ps, |occ|)
    requires t < |rem| && rem[t] > 0
    requires forall j :: 0 <= j < |ps[t]| && Fits(occ, ps[t][j]) ==> !Packable(ps, ApplyWords(occ, ps[t][j]), Take(rem, t))
    ensures !Packable(ps, occ, rem)
  {
    if Packable(ps, occ, rem) {
      var j := AnyTypeFirst(ps, occ, rem, t);
    }
  }

  /** Number of placements in `plist` that fit the grid. */
  function FitCount(occ: seq<Word>, plist: seq<Placement>): (n: nat)
    requires forall j :: 0 <= j < |plist| ==> InGrid(plist[j], |occ|)
    ensures n <= |plist|
    ensures n == 0 <==> forall j :: 0 <= j < |plist| ==> !Fits(occ, plist[j])
  {
    if plist == [] then 0
    else FitCount(occ, plist[..|plist| - 1]) + (if Fits(occ, plist[|plist| - 1]) then 1 else 0)
  }

  lemma {:induction false} FitCountPrefix(occ: seq<Word>, plist: seq<Placement>, k: nat)
    requires forall j :: 0 <= j < |plist| ==> InGrid(plist[j], |occ|)
    requires k <= |plist|
    ensures FitCount(occ, plist[..k]) <= FitCount(occ, plist)
    decreases |plist|
  {
    if k < |plist| {
      assert plist[..|plist| - 1][..k] == plist[..k];
      FitCountPrefix(occ, plist[..|plist| - 1], k);
    } else {
      assert plist[..k] == plist;
    }
  }

  function Min(a: nat, b: nat): nat
  {
    if a <= b then a else b
  }

  /** The inner counting loop of the type choice: the number of fitting
      placements, cut off once it reaches `cap` (the best count so far). */
  method CountFits(occ: array<Word>, plist: seq<Placement>, cap: Option<nat>) returns (fit: nat)
    requires forall j :: 0 <= j < |plist| ==> InGrid(plist[j], occ.Length)
    requires cap.Some? ==> cap.value > 0
    ensures cap.None? ==> fit == FitCount(occ[..], plist)
    ensures cap.Some? ==> fit == Min(FitCount(occ[..], plist), cap.value)
  {
    fit := 0;
    for j := 0 to |plist|
      invariant fit == FitCount(occ[..], plist[..j])
      invariant cap.Some? ==> fit < cap.value
    {
      assert plist[..j + 1][..j] == plist[..j];
      if Fits(occ[..], plist[j]) {
        fit := fit + 1;
        if cap.Some? && fit >= cap.value {
          FitCountPrefix(occ[..], plist, j + 1);
          return;
        }
      }
    }
    assert plist[..|plist|] == plist;
  }

  /** The fail-first choice of `dfs_pack`: `None` when some type with pieces
      left has no fitting placement at all, otherwise a type with pieces left
      whose number of fitting placements is the smallest. */
  method ChooseType(occ: array<Word>, remaining: array<nat>, ps: seq<seq<Placement>>, types: seq<nat>)
    returns (best: Option<nat>)
    requires remaining.Length == |ps| && AllWellFormed(ps, occ.Length)
    requires forall k :: 0 <= k < |types| ==> types[k] < remaining.Length
    requires exists k :: 0 <= k < |types| && remaining[types[k]] > 0
    ensures best.None? ==> exists k :: 0 <= k < |types| && remaining[types[k]] > 0 && FitCount(occ[..], ps[types[k]]) == 0
    ensures best.Some? ==> best.value in types && best.value < |ps| && remaining[best.value] > 0
    ensures best.Some? ==> 0 < FitCount(occ[..], ps[best.value])
    ensures best.Some? ==> forall k :: 0 <= k < |types| && remaining[types[k]] > 0 && FitCount(occ[..], ps[types[k]]) > 0 ==>
      FitCount(occ[..], ps[best.value]) <= FitCount(occ[..], ps[types[k]])
  {
    best := None;
    var bestFit: nat := 0;
    ghost var rem, counts := remaining[..], FitCounts(occ[..], ps);
    for k := 0 to |types|
      invariant best.None? ==> forall i :: 0 <= i < k ==> rem[types[i]] == 0
      invariant best.Some? ==> best.value in types && FewestSoFar(rem, counts, types[..k], best.value, bestFit)
    {
      var t := types[k];
      assert types[..k + 1] == types[..k] + [t];
      if remaining[t] == 0 {
        if best.Some? {
          FewestExtend(rem, counts, types[..k], best.value, bestFit, t);
        }
      } else {
        var stuck;
        best, bestFit, stuck := ConsiderType(occ, ps, t, best, bestFit, rem, counts, types[..k]);
        if stuck {
          return None;
        }
        if bestFit == 1 {
          return;
        }
      }
    }
    assert types[..|types|] == types;
    FewestAll(rem, counts, types, best.value, bestFit);
  }

  /** One round of the type choice, for a type `t` with pieces left: counts
      its fitting placements (cut off at the best count so far) and keeps it
      when it has fewer; `stuck` when it has none at all. */
  method ConsiderType(occ: array<Word>, ps: seq<seq<Placement>>, t: nat, best: Option<nat>, bestFit: nat,
                      ghost rem: seq<nat>, ghost counts: seq<nat>, ghost seen: seq<nat>)
    returns (best': Option<nat>, bestFit': nat, stuck: bool)
    requires |rem| == |ps| && AllWellFormed(ps, occ.Length) && counts == FitCounts(occ[..], ps)
    requires t < |rem| && rem[t] > 0
    requires best.None? ==> forall i :: 0 <= i < |seen| ==> seen[i] < |rem| && rem[seen[i]] == 0
    requires best.Some? ==> FewestSoFar(rem, counts, seen, best.value, bestFit)
    ensures stuck <==> counts[t] == 0
    ensures !stuck ==> best' == (if best.None? || counts[t] < bestFit then Some(t) else best)
    ensures !stuck ==> FewestSoFar(rem, counts, seen + [t], best'.value, bestFit')
  {
    var fit := CountFits(occ, ps[t], if best.None? then None else Some(bestFit));
    if fit == 0 {
      return best, bestFit, true;
    }
    stuck := false;
    if best.None? {
      FewestFirst(rem, counts, seen, t);
      best', bestFit' := Some(t), fit;
    } else if fit < bestFit {
      FewestReplace(rem, counts, seen, best.value, bestFit, t);
      best', bestFit' := Some(t), fit;
    } else {
      FewestExtend(rem, counts, seen, best.value, bestFit, t);
      best', bestFit' := best, bestFit;
    }
  }

  /** The fitting placements of every type on grid `o`. */
  ghost function FitCounts(o: seq<Word>, ps: seq<seq<Placement>>): (c: seq<nat>)
    requires AllWellFormed(ps, |o|)
    ensures |c| == |ps| && forall t :: 0 <= t < |ps| ==> c[t] == FitCount(o, ps[t])
  {
    seq(|ps|, t requires 0 <= t < |ps| => FitCount(o, ps[t]))
  }

  /** Type `t` has pieces left and `fit` fitting placements (at least one),
      and no type of `seen` with pieces left has fewer. */
  predicate FewestSoFar(rem: seq<nat>, counts: seq<nat>, seen: seq<nat>, t: nat, fit: nat)
  {
    && |rem| == |counts|
    && (forall k :: 0 <= k < |seen| ==> seen[k] < |rem|)
    && t < |rem| && rem[t] > 0 && fit == counts[t] > 0
    && forall i :: 0 <= i < |seen| && rem[seen[i]] > 0 ==> fit <= counts[seen[i]]
  }

  /** Once every type has been seen, `t` has the fewest fitting placements
      among the types with pieces left. */
  lemma FewestAll(rem: seq<nat>, counts: seq<nat>, types: seq<nat>, t: nat, fit: nat)
    requires FewestSoFar(rem, counts, types, t, fit)
    ensures forall k :: 0 <= k < |types| && rem[types[k]] > 0 ==> fit <= counts[types[k]]
  {
  }

  lemma FewestFirst(rem: seq<nat>, counts: seq<nat>, seen: seq<nat>, x: nat)
    requires |rem| == |counts|
    requires forall k :: 0 <= k < |seen| ==> seen[k] < |rem| && rem[seen[k]] == 0
    requires x < |rem| && rem[x] > 0 && counts[x] > 0
    ensures FewestSoFar(rem, counts, seen + [x], x, counts[x])
  {
    var s := seen + [x];
    assert forall i :: 0 <= i < |seen| ==> s[i] == seen[i];
  }

  lemma FewestReplace(rem: seq<nat>, counts: seq<nat>, seen: seq<nat>, t: nat, bestFit: nat, x: nat)
    requires FewestSoFar(rem, counts, seen, t, bestFit)
    requires x < |rem| && rem[x] > 0 && 0 < counts[x] < bestFit
    ensures FewestSoFar(rem, counts, seen + [x], x, counts[x])
  {
    var s := seen + [x];
    forall i | 0 <= i < |s| && rem[s[i]] > 0
      ensures counts[x] <= counts[s[i]]
    {
      if i < |seen| {
        assert s[i] == seen[i];
      }
    }
  }

  lemma FewestExtend(rem: seq<nat>, counts: seq<nat>, seen: seq<nat>, t: nat, fit: nat, x: nat)
    requires FewestSoFar(rem, counts, seen, t, fit)
    requires x < |rem| && (rem[x] > 0 ==> fit <= counts[x])
    ensures FewestSoFar(rem, counts, seen + [x], t, fit)
  {
    var s := seen + [x];
    forall i | 0 <= i < |s| && rem[s[i]] > 0
      ensures fit <= counts[s[i]]
    {
      if i < |seen| {
        assert s[i] == seen[i];
      }
    }
  }

  /** A memo entry: the grid words and the counts still to place. */
  datatype StateKey = StateKey(occ: seq<Word>, remaining: seq<nat>)

  /** Every key in the memo is a state from which no packing exists. */
  ghost predicate MemoSound(ps: seq<seq<Placement>>, words: nat, memo: set<StateKey>)
    requires AllWellFormed(ps, words)
  {
    forall key :: key in memo ==>
      |key.occ| == words && |key.remaining| == |ps| && !Packable(ps, key.occ, key.remaining)
  }

  /** The requirements every call of the search meets: the placement lists
      fit the grid, the types list every type with pieces left, and
      `piecesLeft` is their number. */
  predicate SearchState(occ: seq<Word>, rem: seq<nat>, ps: seq<seq<Placement>>, types: seq<nat>, piecesLeft: nat)
  {
    |rem| == |ps| && AllWellFormed(ps, |occ|)
    && (forall k :: 0 <= k < |types| ==> types[k] < |rem|)
    && (forall t :: 0 <= t < |rem| && rem[t] > 0 ==> t in types)
    && piecesLeft == Total(rem)
  }

  /** `dfs_pack`: backtracking search over the placements of the fail-first
      type, with a memo of states known to fail. It answers whether the
      pieces left can be packed, restores the grid and counts when it fails,
      and only ever adds failing states to the memo. */
  method DfsPack(occ: array<Word>, remaining: array<nat>, ps: seq<seq<Placement>>, types: seq<nat>,
                 piecesLeft: nat, memo: set<StateKey>) returns (ok: bool, memo': set<StateKey>)
    requires SearchState(occ[..], remaining[..], ps, types, piecesLeft)
    requires MemoSound(ps, occ.Length, memo)
    modifies occ, remaining
    ensures ok == Packable(ps, old(occ[..]), old(remaining[..]))
    ensures ok ==> Total(remaining[..]) == 0
    ensures !ok ==> occ[..] == old(occ[..]) && remaining[..] == old(remaining[..])
    ensures memo <= memo' && MemoSound(ps, occ.Length, memo')
    decreases piecesLeft, 2
  {
    memo' := memo;
    if piecesLeft == 0 {
      return true, memo';
    }
    var key := StateKey(occ[..], remaining[..]);
    if key in memo' {
      return false, memo';
    }
    ghost var u := TotalPositive(remaining[..]);
    var best := ChooseType(occ, remaining, ps, types);
    if best.None? {
      ghost var k :| 0 <= k < |types| && remaining[types[k]] > 0 && FitCount(occ[..], ps[types[k]]) == 0;
      Exhausted(ps, occ[..], remaining[..], types[k]);
      memo' := memo' + {key};
      return false, memo';
    }
    ok, memo' := TryType(occ, remaining, ps, types, piecesLeft, memo', best.value);
    if !ok {
      memo' := memo' + {key};
    }
  }

  /** The branching loop of `dfs_pack`: tries each fitting placement of type
      `t` in turn and succeeds as soon as one leads to a packing. */
  method TryType(occ: array<Word>, remaining: array<nat>, ps: seq<seq<Placement>>, types: seq<nat>,
                 piecesLeft: nat, memo: set<StateKey>, t: nat) returns (ok: bool, memo': set<StateKey>)
    requires SearchState(occ[..], remaining[..], ps, types, piecesLeft)
    requires MemoSound(ps, occ.Length, memo)
    requires t < remaining.Length && remaining[t] > 0
    modifies occ, remaining
    ensures ok == Packable(ps, old(occ[..]), old(remaining[..]))
    ensures ok ==> Total(remaining[..]) == 0
    ensures !ok ==> occ[..] == old(occ[..]) && remaining[..] == old(remaining[..])
    ensures memo <= memo' && MemoSound(ps, occ.Length, memo')
    decreases piecesLeft, 1
  {
    ghost var o0, r0 := occ[..], remaining[..];
    var plist := ps[t];
    memo' := memo;
    for j := 0 to |plist|
      invariant occ[..] == o0 && remaining[..] == r0
      invariant memo <= memo' && MemoSound(ps, occ.Length, memo')
      invariant forall i :: 0 <= i < j && Fits(o0, plist[i]) ==> !Packable(ps, ApplyWords(o0, plist[i]), Take(r0, t))
    {
      if Fits(occ[..], plist[j]) {
        ok, memo' := TryPlacement(occ, remaining, ps, types, piecesLeft, memo', t, plist[j]);
        if ok {
          PackableStep(ps, o0, r0, t, j);
          return;
        }
      }
    }
    Exhausted(ps, o0, r0, t);
    return false, memo';
  }

  /** One step of the branching loop: apply `p`, take a piece of type `t`,
      search on, and undo both when that fails. */
  method TryPlacement(occ: array<Word>, remaining: array<nat>, ps: seq<seq<Placement>>, types: seq<nat>,
                      piecesLeft: nat, memo: set<StateKey>, t: nat, p: Placement) returns (ok: bool, memo': set<StateKey>)
    requires SearchState(occ[..], remaining[..], ps, types, piecesLeft)
    requires MemoSound(ps, occ.Length, memo)
    requires t < remaining.Length && remaining[t] > 0
    requires WellFormed(p, occ.Length) && Fits(occ[..], p)
    modifies occ, remaining
    ensures ok == Packable(ps, ApplyWords(old(occ[..]), p), Take(old(remaining[..]), t))
    ensures ok ==> Total(remaining[..]) == 0
    ensures !ok ==> occ[..] == old(occ[..]) && remaining[..] == old(remaining[..])
    ensures memo <= memo' && MemoSound(ps, occ.Length, memo')
    decreases piecesLeft, 0
  {
    ghost var o0, r0 := occ[..], remaining[..];
    Apply(occ, p);
    remaining[t] := remaining[t] - 1;
    assert remaining[..] == Take(r0, t);
    ok, memo' := DfsPack(occ, remaining, ps, types, piecesLeft - 1, memo);
    if !ok {
      remaining[t] := remaining[t] + 1;
      assert remaining[..] == r0;
      Unapply(occ, p);
      ApplyUnapply(o0, p);
    }
  }

  /** A present shape in one orientation: its bounding box and its cells,
      relative to the box's corner. */
  datatype Variant = Variant(w: nat, h: nat, cells: seq<(nat, nat)>)

  /** `Shape`: the number of cells and the distinct orientations. */
  datatype Shape = Shape(area: nat, variants: seq<Variant>)

  /** The cells of `v` lie inside its bounding box. */
  predicate InBox(v: Variant)
  {
    forall c :: 0 <= c < |v.cells| ==> v.cells[c].0 < v.w && v.cells[c].1 < v.h
  }

  /** Index of the cell at `(x0 + dx, y0 + dy)` in a region `w` cells wide. */
  function CellIndex(cell: (nat, nat), x0: nat, y0: nat, w: nat): nat
  {
    (y0 + cell.1) * w + (x0 + cell.0)
  }

  /** Number of 64-bit words of a `w` by `h` region (`div_ceil(64)`). */
  function Words(w: nat, h: nat): nat
  {
    (w * h + 63) / 64
  }

  /** The placement sets the bit of cell `n`. */
  predicate Covers(p: Placement, n: nat)
  {
    n % 64 in MaskAt(p.chunks, n / 64)
  }

  /** `p` is variant `v` translated by `(x0, y0)` inside a `w` by `h` region:
      it sets exactly the bits of the translated cells. */
  ghost predicate PlacedAt(p: Placement, v: Variant, x0: nat, y0: nat, w: nat, h: nat)
  {
    x0 + v.w <= w && y0 + v.h <= h
    && forall n :: Covers(p, n) <==> exists c :: 0 <= c < |v.cells| && CellIndex(v.cells[c], x0, y0, w) == n
  }

  /** Every chunk names the word of one of the translated cells. */
  predicate WordsOfCells(p: Placement, cells: seq<(nat, nat)>, x0: nat, y0: nat, w: nat)
  {
    forall k :: 0 <= k < |p.chunks| ==>
      exists c :: 0 <= c < |cells| && p.chunks[k].0 == CellIndex(cells[c], x0, y0, w) / 64
  }

  /** Position of the first chunk naming word `wi` (`iter_mut().find`), or
      the number of chunks when there is none. */
  function FindWord(chunks: seq<(nat, Word)>, wi: nat): (q: nat)
    ensures q <= |chunks|
    ensures q < |chunks| ==> chunks[q].0 == wi
    ensures forall k :: 0 <= k < q ==> chunks[k].0 != wi
  {
    if chunks == [] then 0
    else if chunks[0].0 == wi then 0
    else 1 + FindWord(chunks[1..], wi)
  }

  /** Chunk `q` with `bits` ORed into its mask. */
  function Grow(chunks: seq<(nat, Word)>, q: nat, bits: Word): seq<(nat, Word)>
    requires q < |chunks|
  {
    var m: Word := chunks[q].1 + bits;
    chunks[q := (chunks[q].0, m)]
  }

  /** Adding bits to one chunk's mask adds them to the mask of its word. */
  lemma {:induction false} MaskGrow(chunks: seq<(nat, Word)>, q: nat, bits: Word, i: nat)
    requires q < |chunks|
    ensures MaskAt(Grow(chunks, q, bits), i)
      == MaskAt(chunks, i) + (if chunks[q].0 == i then bits else {})
  {
    var chunks' := Grow(chunks, q, bits);
    if q < |chunks| - 1 {
      assert chunks'[..|chunks| - 1] == Grow(chunks[..|chunks| - 1], q, bits);
      MaskGrow(chunks[..|chunks| - 1], q, bits, i);
    } else {
      assert chunks'[..|chunks| - 1] == chunks[..|chunks| - 1];
    }
  }

  /** The chunk list after cell index `idx` is added: its word's chunk gets
      the bit, or a new chunk is pushed. */
  function AddCell(chunks: seq<(nat, Word)>, idx: nat): seq<(nat, Word)>
  {
    var q := FindWord(chunks, idx / 64);
    if q < |chunks| then Grow(chunks, q, {idx % 64})
    else chunks + [(idx / 64, {idx % 64})]
  }

  /** Adding a cell keeps the chunk words distinct and covers exactly one more
      cell. */
  lemma AddCellCovers(chunks: seq<(nat, Word)>, idx: nat)
    requires DistinctWords(chunks)
    ensures DistinctWords(AddCell(chunks, idx))
    ensures forall n :: Covers(Placement(AddCell(chunks, idx)), n) <==> Covers(Placement(chunks), n) || n == idx
    ensures forall k :: 0 <= k < |AddCell(chunks, idx)| ==>
      AddCell(chunks, idx)[k].0 == idx / 64 || exists l :: 0 <= l < |chunks| && chunks[l].0 == AddCell(chunks, idx)[k].0
  {
    var q := FindWord(chunks, idx / 64);
    if q < |chunks| {
      forall n: nat
        ensures Covers(Placement(AddCell(chunks, idx)), n) <==> Covers(Placement(chunks), n) || n == idx
      {
        MaskGrow(chunks, q, {idx % 64}, n / 64);
      }
    } else {
      var chunks' := chunks + [(idx / 64, {idx % 64})];
      assert chunks'[..|chunks|] == chunks;
    }
  }

  /** The chunks `generate` builds for `cells` translated by `(x0, y0)`,
      adding the cells in order. */
  function EncodeFold(cells: seq<(nat, nat)>, x0: nat, y0: nat, w: nat): seq<(nat, Word)>
  {
    if cells == [] then []
    else AddCell(EncodeFold(cells[..|cells| - 1], x0, y0, w), CellIndex(cells[|cells| - 1], x0, y0, w))
  }

  /** The encoded placement has one chunk per word it touches. */
  lemma {:induction false} EncodeDistinct(cells: seq<(nat, nat)>, x0: nat, y0: nat, w: nat)
    ensures DistinctWords(EncodeFold(cells, x0, y0, w))
  {
    if cells != [] {
      EncodeDistinct(cells[..|cells| - 1], x0, y0, w);
      AddCellCovers(EncodeFold(cells[..|cells| - 1], x0, y0, w), CellIndex(cells[|cells| - 1], x0, y0, w));
    }
  }

  /** The encoded placement sets exactly the bits of the translated cells. */
  lemma {:induction false} EncodeCovers(cells: seq<(nat, nat)>, x0: nat, y0: nat, w: nat)
    ensures forall n :: Covers(Placement(EncodeFold(cells, x0, y0, w)), n) <==>
      exists c :: 0 <= c < |cells| && CellIndex(cells[c], x0, y0, w) == n
  {
    if cells != [] {
      var init := cells[..|cells| - 1];
      EncodeCovers(init, x0, y0, w);
      EncodeDistinct(init, x0, y0, w);
      AddCellCovers(EncodeFold(init, x0, y0, w), CellIndex(cells[|cells| - 1], x0, y0, w));
      assert forall c :: 0 <= c < |init| ==> init[c] == cells[c];
    }
  }

  /** Each chunk of the encoded placement is the word of some translated cell. */
  lemma {:induction false} EncodeWords(cells: seq<(nat, nat)>, x0: nat, y0: nat, w: nat)
    ensures WordsOfCells(Placement(EncodeFold(cells, x0, y0, w)), cells, x0, y0, w)
  {
    if cells != [] {
      var init := cells[..|cells| - 1];
      EncodeWords(init, x0, y0, w);
      EncodeDistinct(init, x0, y0, w);
      var chunks := EncodeFold(init, x0, y0, w);
      var idx := CellIndex(cells[|cells| - 1], x0, y0, w);
      AddCellCovers(chunks, idx);
      var p := Placement(EncodeFold(cells, x0, y0, w));
      forall k | 0 <= k < |p.chunks|
        ensures exists c :: 0 <= c < |cells| && p.chunks[k].0 == CellIndex(cells[c], x0, y0, w) / 64
      {
        if p.chunks[k].0 != idx / 64 {
          var l :| 0 <= l < |chunks| && chunks[l].0 == p.chunks[k].0;
          var c :| 0 <= c < |init| && chunks[l].0 == CellIndex(init[c], x0, y0, w) / 64;
          assert init[c] == cells[c];
        }
      }
    }
  }

  /** The chunk-building loop of `generate` for one translated variant. */
  method Encode(cells: seq<(nat, nat)>, x0: nat, y0: nat, w: nat) returns (p: Placement)
    ensures p == Placement(EncodeFold(cells, x0, y0, w))
  {
    var chunks: seq<(nat, Word)> := [];
    for c := 0 to |cells|
      invariant chunks == EncodeFold(cells[..c], x0, y0, w)
    {
      assert cells[..c + 1][..c] == cells[..c];
      var idx := CellIndex(cells[c], x0, y0, w);
      var q := FindWord(chunks, idx / 64);
      if q < |chunks| {
        chunks := Grow(chunks, q, {idx % 64});
      } else {
        chunks := chunks + [(idx / 64, {idx % 64})];
      }
    }
    assert cells[..|cells|] == cells;
    p := Placement(chunks);
  }

  /** A cell inside the region has an index inside the region. */
  lemma IndexInRegion(x: nat, y: nat, w: nat, h: nat)
    requires x < w && y < h
    ensures y * w + x < w * h
    ensures (y * w + x) / 64 < Words(w, h)
  {
    assert y * w <= (h - 1) * w by {
      MulLeq(y, h - 1, w);
    }
  }

  lemma MulLeq(a: nat, b: nat, k: nat)
    requires a <= b
    ensures a * k <= b * k
  {
  }

  /** Row-major indices of cells inside a row of width `w` are distinct. */
  lemma IndexUnique(x1: nat, y1: nat, x2: nat, y2: nat, w: nat)
    requires x1 < w && x2 < w && y1 * w + x1 == y2 * w + x2
    ensures x1 == x2 && y1 == y2
  {
    if y1 < y2 {
      MulLeq(y1 + 1, y2, w);
    } else if y2 < y1 {
      MulLeq(y2 + 1, y1, w);
    }
  }

  /** A placement built from cells inside the region names only words of the
      region's grid. */
  lemma EncodedInGrid(p: Placement, v: Variant, x0: nat, y0: nat, w: nat, h: nat)
    requires InBox(v) && x0 + v.w <= w && y0 + v.h <= h
    requires WordsOfCells(p, v.cells, x0, y0, w)
    ensures InGrid(p, Words(w, h))
  {
    forall k | 0 <= k < |p.chunks|
      ensures p.chunks[k].0 < Words(w, h)
    {
      var c :| 0 <= c < |v.cells| && p.chunks[k].0 == CellIndex(v.cells[c], x0, y0, w) / 64;
      IndexInRegion(x0 + v.cells[c].0, y0 + v.cells[c].1, w, h);
    }
  }

  /** Every bit a placement of a variant sets is the index `y * w + x` of a
      cell with `x < w` and `y < h`. */
  lemma CoveredInRegion(p: Placement, v: Variant, x0: nat, y0: nat, w: nat, h: nat, n: nat)
    requires InBox(v) && PlacedAt(p, v, x0, y0, w, h) && Covers(p, n)
    ensures n < w * h
    ensures exists c :: 0 <= c < |v.cells|
                     && x0 + v.cells[c].0 < w && y0 + v.cells[c].1 < h && n == (y0 + v.cells[c].1) * w + (x0 + v.cells[c].0)
  {
    var c :| 0 <= c < |v.cells| && CellIndex(v.cells[c], x0, y0, w) == n;
    IndexInRegion(x0 + v.cells[c].0, y0 + v.cells[c].1, w, h);
  }

  /** A placement sets one bit per cell: distinct cells of a variant get
      distinct bits. */
  lemma OneBitPerCell(v: Variant, x0: nat, y0: nat, w: nat, c1: nat, c2: nat)
    requires InBox(v) && x0 + v.w <= w
    requires c1 < |v.cells| && c2 < |v.cells| && v.cells[c1] != v.cells[c2]
    ensures CellIndex(v.cells[c1], x0, y0, w) != CellIndex(v.cells[c2], x0, y0, w)
  {
    if CellIndex(v.cells[c1], x0, y0, w) == CellIndex(v.cells[c2], x0, y0, w) {
      IndexUnique(x0 + v.cells[c1].0, y0 + v.cells[c1].1, x0 + v.cells[c2].0, y0 + v.cells[c2].1, w);
    }
  }

  /** The placement of `v` at `(x0, y0)`. */
  function PlacementAt(v: Variant, x0: nat, y0: nat, w: nat): Placement
  {
    Placement(EncodeFold(v.cells, x0, y0, w))
  }

  /** The placement of a variant inside the region is well formed for the
      region's grid and sets exactly the bits of the translated cells. */
  lemma PlacementAtFacts(v: Variant, x0: nat, y0: nat, w: nat, h: nat)
    requires InBox(v) && x0 + v.w <= w && y0 + v.h <= h
    ensures WellFormed(PlacementAt(v, x0, y0, w), Words(w, h))
    ensures PlacedAt(PlacementAt(v, x0, y0, w), v, x0, y0, w, h)
  {
    EncodeDistinct(v.cells, x0, y0, w);
    EncodeCovers(v.cells, x0, y0, w);
    EncodeWords(v.cells, x0, y0, w);
    EncodedInGrid(PlacementAt(v, x0, y0, w), v, x0, y0, w, h);
  }

  /** Row `y0` of offsets of `v`: `x0` from 0 to `w - v.w`. */
  function Row(v: Variant, y0: nat, w: nat): seq<Placement>
    requires v.w <= w
  {
    seq(w - v.w + 1, x0 requires 0 <= x0 <= w - v.w => PlacementAt(v, x0, y0, w))
  }

  /** The first `n` rows of offsets of `v`. */
  function Rows(v: Variant, n: nat, w: nat): seq<Placement>
    requires v.w <= w
  {
    if n == 0 then [] else Rows(v, n - 1, w) + Row(v, n - 1, w)
  }

  /** The list `generate` builds: for each variant that fits the region, its
      placements at every offset, row by row. */
  function Placements(w: nat, h: nat, vs: seq<Variant>): seq<Placement>
  {
    if vs == [] then []
    else
      var v := vs[|vs| - 1];
      Placements(w, h, vs[..|vs| - 1]) + (if v.w > w || v.h > h then [] else Rows(v, h - v.h + 1, w))
  }

  /** Some placement in `plist` is `v` at `(x0, y0)`. */
  ghost predicate Offered(plist: seq<Placement>, v: Variant, x0: nat, y0: nat, w: nat, h: nat)
  {
    exists j :: 0 <= j < |plist| && PlacedAt(plist[j], v, x0, y0, w, h)
  }

  /** `p` is `v` at some offset. */
  ghost predicate IsTranslate(p: Placement, v: Variant, w: nat, h: nat)
  {
    exists x0: nat, y0: nat :: PlacedAt(p, v, x0, y0, w, h)
  }

  /** `p` is one of the variants `vs` at some offset. */
  ghost predicate FromVariants(p: Placement, vs: seq<Variant>, w: nat, h: nat)
  {
    exists k :: 0 <= k < |vs| && IsTranslate(p, vs[k], w, h)
  }

  /** Joining lists keeps what each offers. */
  lemma OfferedConcat(a: seq<Placement>, b: seq<Placement>, v: Variant, w: nat, h: nat)
    ensures forall x: nat, y: nat :: Offered(a, v, x, y, w, h) || Offered(b, v, x, y, w, h) ==> Offered(a + b, v, x, y, w, h)
  {
    forall x: nat, y: nat | Offered(a, v, x, y, w, h) || Offered(b, v, x, y, w, h)
      ensures Offered(a + b, v, x, y, w, h)
    {
      if Offered(a, v, x, y, w, h) {
        var j :| 0 <= j < |a| && PlacedAt(a[j], v, x, y, w, h);
        assert (a + b)[j] == a[j];
      } else {
        var j :| 0 <= j < |b| && PlacedAt(b[j], v, x, y, w, h);
        assert (a + b)[|a| + j] == b[j];
      }
    }
  }

  /** One row of offsets: each entry is well formed and is `v` at its own
      offset, so every offset of the row is offered. */
  lemma RowFacts(v: Variant, y0: nat, w: nat, h: nat)
    requires InBox(v) && v.w <= w && y0 + v.h <= h
    ensures forall x0 :: 0 <= x0 < |Row(v, y0, w)| ==>
      WellFormed(Row(v, y0, w)[x0], Words(w, h)) && PlacedAt(Row(v, y0, w)[x0], v, x0, y0, w, h)
    ensures forall x0: nat :: x0 + v.w <= w ==> Offered(Row(v, y0, w), v, x0, y0, w, h)
  {
    var row := Row(v, y0, w);
    forall x0: nat | x0 + v.w <= w
      ensures WellFormed(row[x0], Words(w, h)) && PlacedAt(row[x0], v, x0, y0, w, h)
      ensures Offered(row, v, x0, y0, w, h)
    {
      PlacementAtFacts(v, x0, y0, w, h);
    }
  }

  /** The rows hold, well formed, exactly the translates of `v` by the
      offsets in the first `n` rows. */
  lemma {:induction false} RowsFacts(v: Variant, n: nat, w: nat, h: nat)
    requires InBox(v) && v.w <= w && v.h <= h && n <= h - v.h + 1
    ensures forall j :: 0 <= j < |Rows(v, n, w)| ==>
      WellFormed(Rows(v, n, w)[j], Words(w, h)) && IsTranslate(Rows(v, n, w)[j], v, w, h)
    ensures forall x0: nat, y0: nat :: x0 + v.w <= w && y0 < n ==> Offered(Rows(v, n, w), v, x0, y0, w, h)
  {
    if n > 0 {
      var m := n - 1;
      RowsFacts(v, m, w, h);
      RowFacts(v, m, w, h);
      RowsOfferedStep(v, m, n, w, h);
      RowsTranslateStep(v, m, n, w, h);
    }
  }

  /** Adding row `m` (so that `n == m + 1`) offers its offsets and keeps the
      earlier ones. */
  lemma RowsOfferedStep(v: Variant, m: nat, n: nat, w: nat, h: nat)
    requires InBox(v) && v.w <= w && n == m + 1 && m + v.h <= h
    requires forall x0: nat, y0: nat :: x0 + v.w <= w && y0 < m ==> Offered(Rows(v, m, w), v, x0, y0, w, h)
    requires forall x0: nat :: x0 + v.w <= w ==> Offered(Row(v, m, w), v, x0, m, w, h)
    ensures forall x0: nat, y0: nat :: x0 + v.w <= w && y0 < n ==> Offered(Rows(v, n, w), v, x0, y0, w, h)
  {
    var front, row := Rows(v, m, w), Row(v, m, w);
    OfferedConcat(front, row, v, w, h);
    assert Rows(v, n, w) == front + row;
    forall x0: nat, y0: nat | x0 + v.w <= w && y0 < n
      ensures Offered(front + row, v, x0, y0, w, h)
    {
      if y0 < m {
        assert Offered(front, v, x0, y0, w, h);
      } else {
        assert y0 == m;
        assert Offered(Row(v, m, w), v, x0, m, w, h);
      }
    }
  }

  /** Adding row `m` (so that `n == m + 1`) keeps every entry well formed and
      a translate. */
  lemma RowsTranslateStep(v: Variant, m: nat, n: nat, w: nat, h: nat)
    requires InBox(v) && v.w <= w && n == m + 1 && m + v.h <= h
    requires forall j :: 0 <= j < |Rows(v, m, w)| ==>
      WellFormed(Rows(v, m, w)[j], Words(w, h)) && IsTranslate(Rows(v, m, w)[j], v, w, h)
    requires forall x0 :: 0 <= x0 < |Row(v, m, w)| ==>
      WellFormed(Row(v, m, w)[x0], Words(w, h)) && PlacedAt(Row(v, m, w)[x0], v, x0, m, w, h)
    ensures forall j :: 0 <= j < |Rows(v, n, w)| ==>
      WellFormed(Rows(v, n, w)[j], Words(w, h)) && IsTranslate(Rows(v, n, w)[j], v, w, h)
  {
    var front, row := Rows(v, m, w), Row(v, m, w);
    var rows := Rows(v, n, w);
    assert rows == front + row;
    forall j | 0 <= j < |rows|
      ensures WellFormed(rows[j], Words(w, h)) && IsTranslate(rows[j], v, w, h)
    {
      if j < |front| {
        assert rows[j] == front[j];
      } else {
        var x0 := j - |front|;
        assert rows[j] == row[x0];
        assert PlacedAt(rows[j], v, x0, m, w, h);
      }
    }
  }

  /** Every placement `generate` lists is well formed for the region's grid. */
  lemma {:induction false} PlacementsWellFormed(w: nat, h: nat, vs: seq<Variant>)
    requires forall k :: 0 <= k < |vs| ==> InBox(vs[k])
    ensures forall j :: 0 <= j < |Placements(w, h, vs)| ==> WellFormed(Placements(w, h, vs)[j], Words(w, h))
    ensures forall j :: 0 <= j < |Placements(w, h, vs)| ==> FromVariants(Placements(w, h, vs)[j], vs, w, h)
  {
    if vs != [] {
      var init, v := vs[..|vs| - 1], vs[|vs| - 1];
      PlacementsWellFormed(w, h, init);
      if v.w <= w && v.h <= h {
        RowsFacts(v, h - v.h + 1, w, h);
      }
      var ps, front := Placements(w, h, vs), Placements(w, h, init);
      forall j | 0 <= j < |ps|
        ensures WellFormed(ps[j], Words(w, h))
        ensures FromVariants(ps[j], vs, w, h)
      {
        ghost var k: nat;
        var tail := if v.w > w || v.h > h then [] else Rows(v, h - v.h + 1, w);
        assert ps == front + tail;
        if j < |front| {
          assert ps[j] == front[j];
          assert FromVariants(front[j], init, w, h);
          k :| 0 <= k < |init| && IsTranslate(front[j], init[k], w, h);
          assert vs[k] == init[k];
        } else {
          assert ps[j] == tail[j - |front|];
          k := |vs| - 1;
        }
        assert 0 <= k < |vs| && IsTranslate(ps[j], vs[k], w, h);
      }
    }
  }

  /** `generate` misses no placement: every offset that keeps a variant
      inside the region is listed. */
  lemma {:induction false} PlacementsComplete(w: nat, h: nat, vs: seq<Variant>)
    requires forall k :: 0 <= k < |vs| ==> InBox(vs[k])
    ensures forall k, x0: nat, y0: nat :: 0 <= k < |vs| && x0 + vs[k].w <= w && y0 + vs[k].h <= h ==>
      Offered(Placements(w, h, vs), vs[k], x0, y0, w, h)
  {
    if vs != [] {
      var init, v := vs[..|vs| - 1], vs[|vs| - 1];
      PlacementsComplete(w, h, init);
      var tail := if v.w > w || v.h > h then [] else Rows(v, h - v.h + 1, w);
      if v.w <= w && v.h <= h {
        RowsFacts(v, h - v.h + 1, w, h);
      }
      forall k | 0 <= k < |vs|
        ensures forall x0: nat, y0: nat :: x0 + vs[k].w <= w && y0 + vs[k].h <= h ==>
          Offered(Placements(w, h, vs), vs[k], x0, y0, w, h)
      {
        OfferedConcat(Placements(w, h, init), tail, vs[k], w, h);
        if k < |init| {
          assert vs[k] == init[k];
        }
      }
    }
  }

  /** The innermost loop of `generate`: the placements of `v` along row `y0`. */
  method GenerateRow(v: Variant, y0: nat, w: nat) returns (row: seq<Placement>)
    requires v.w <= w
    ensures row == Row(v, y0, w)
  {
    row := [];
    for x0 := 0 to w - v.w + 1
      invariant row == Row(v, y0, w)[..x0]
    {
      var p := Encode(v.cells, x0, y0, w);
      assert Row(v, y0, w)[..x0 + 1] == Row(v, y0, w)[..x0] + [p];
      row := row + [p];
    }
    assert Row(v, y0, w)[..w - v.w + 1] == Row(v, y0, w);
  }

  /** `PlacementList::generate`: the loops over variants, rows and columns. */
  method Generate(w: nat, h: nat, shape: Shape) returns (plist: seq<Placement>)
    ensures plist == Placements(w, h, shape.variants)
  {
    var vs := shape.variants;
    plist := [];
    for k := 0 to |vs|
      invariant plist == Placements(w, h, vs[..k])
    {
      PlacementsSnoc(w, h, vs, k);
      var v := vs[k];
      if v.w > w || v.h > h {
        continue;
      }
      var rows := GenerateRows(v, h - v.h + 1, w);
      plist := plist + rows;
    }
    assert vs[..|vs|] == vs;
  }

  /** The placement list grows by one variant's rows at a time. */
  lemma PlacementsSnoc(w: nat, h: nat, vs: seq<Variant>, k: nat)
    requires k < |vs|
    ensures Placements(w, h, vs[..k + 1]) == Placements(w, h, vs[..k])
      + (if vs[k].w > w || vs[k].h > h then [] else Rows(vs[k], h - vs[k].h + 1, w))
  {
    assert vs[..k + 1][..k] == vs[..k];
  }

  /** Lists the first `n` rows of offsets of `v`, row by row. */
  method GenerateRows(v: Variant, n: nat, w: nat) returns (rows: seq<Placement>)
    requires v.w <= w
    ensures rows == Rows(v, n, w)
  {
    rows := [];
    for y0 := 0 to n
      invariant rows == Rows(v, y0, w)
    {
      var row := GenerateRow(v, y0, w);
      rows := rows + row;
    }
  }

  /** A cell turned into orientation (`flip`, `rot`): mirrored in x when
      `flip`, then turned `rot` quarter turns. */
  function Orient(c: (int, int), flip: bool, rot: nat): (int, int)
    requires rot < 4
  {
    var x := if flip then -c.0 else c.0;
    var y := c.1;
    if rot == 0 then (x, y) else if rot == 1 then (-y, x) else if rot == 2 then (-x, -y) else (y, -x)
  }

  function Oriented(base: seq<(int, int)>, flip: bool, rot: nat): (r: seq<(int, int)>)
    requires rot < 4
    ensures |r| == |base|
  {
    seq(|base|, i requires 0 <= i < |base| => Orient(base[i], flip, rot))
  }

  function Xs(s: seq<(int, int)>): (r: seq<int>)
    ensures |r| == |s|
  {
    seq(|s|, i requires 0 <= i < |s| => s[i].0)
  }

  function Ys(s: seq<(int, int)>): (r: seq<int>)
    ensures |r| == |s|
  {
    seq(|s|, i requires 0 <= i < |s| => s[i].1)
  }

  /** `min()` of a non-empty sequence. */
  function MinOf(s: seq<int>): (m: int)
    requires s != []
    ensures forall i :: 0 <= i < |s| ==> m <= s[i]
    ensures exists i :: 0 <= i < |s| && s[i] == m
  {
    if |s| == 1 then s[0]
    else
      var r := MinOf(s[1..]);
      assert forall i :: 1 <= i < |s| ==> s[i] == s[1..][i - 1];
      if s[0] <= r then s[0] else r
  }

  /** `max()` of a non-empty sequence. */
  function MaxOf(s: seq<int>): (m: int)
    requires s != []
    ensures forall i :: 0 <= i < |s| ==> s[i] <= m
    ensures exists i :: 0 <= i < |s| && s[i] == m
  {
    if |s| == 1 then s[0]
    else
      var r := MaxOf(s[1..]);
      assert forall i :: 1 <= i < |s| ==> s[i] == s[1..][i - 1];
      if s[0] >= r then s[0] else r
  }

  /** The cells moved by `(-dx, -dy)`. */
  function Shifted(s: seq<(int, int)>, dx: int, dy: int): (r: seq<(int, int)>)
    ensures |r| == |s|
  {
    seq(|s|, i requires 0 <= i < |s| => (s[i].0 - dx, s[i].1 - dy))
  }

  /** The cells moved so that the smallest x and the smallest y are 0. */
  function Normalized(coords: seq<(int, int)>): (r: seq<(int, int)>)
    requires coords != []
    ensures |r| == |coords|
  {
    Shifted(coords, MinOf(Xs(coords)), MinOf(Ys(coords)))
  }

  /** `(x as u8, y as u8)`: both coordinates truncated to eight bits. */
  function ToU8(c: (int, int)): (nat, nat)
  {
    (c.0 % 256, c.1 % 256)
  }

  /** The order `sort_unstable` puts `(u8, u8)` pairs in. */
  function CellKey(c: (nat, nat)): int
  {
    c.0 * 256 + c.1
  }

  /** On eight-bit pairs the key orders lexicographically, and distinct
      pairs have distinct keys, so sorting by it is the tuple sort. */
  lemma CellKeyIsLexicographic(a: (nat, nat), b: (nat, nat))
    requires a.0 < 256 && a.1 < 256 && b.0 < 256 && b.1 < 256
    ensures CellKey(a) <= CellKey(b) <==> a.0 < b.0 || (a.0 == b.0 && a.1 <= b.1)
    ensures CellKey(a) == CellKey(b) <==> a == b
  {
  }

  /** The variant one orientation gives: the normalised cells truncated to
      `u8` and sorted, with the bounding box `max + 1` on each axis. */
  function VariantOf(coords: seq<(int, int)>): Variant
    requires coords != []
  {
    var norm := Normalized(coords);
    assert Xs(norm)[0] >= 0 && Ys(norm)[0] >= 0;
    Variant(MaxOf(Xs(norm)) + 1, MaxOf(Ys(norm)) + 1, Sorting.SortBy(U8Cells(norm), CellKey))
  }

  /** `coords.into_iter().map(|(x, y)| (x as u8, y as u8)).collect()` */
  function U8Cells(s: seq<(int, int)>): (r: seq<(nat, nat)>)
    ensures |r| == |s|
  {
    seq(|s|, i requires 0 <= i < |s| => ToU8(s[i]))
  }

  /** Shifting every element by `d` shifts the minimum by `d`. */
  lemma MinShift(s: seq<int>, t: seq<int>, d: int)
    requires s != [] && |t| == |s|
    requires forall i :: 0 <= i < |s| ==> t[i] == s[i] - d
    ensures MinOf(t) == MinOf(s) - d
  {
    var i :| 0 <= i < |s| && s[i] == MinOf(s);
    var j :| 0 <= j < |t| && t[j] == MinOf(t);
    assert MinOf(t) <= t[i];
    assert MinOf(s) <= s[j];
  }

  /** After normalisation the smallest x and the smallest y are both 0. */
  lemma NormalizedMins(coords: seq<(int, int)>)
    requires coords != []
    ensures MinOf(Xs(Normalized(coords))) == 0 && MinOf(Ys(Normalized(coords))) == 0
  {
    var norm := Normalized(coords);
    MinShift(Xs(coords), Xs(norm), MinOf(Xs(coords)));
    MinShift(Ys(coords), Ys(norm), MinOf(Ys(coords)));
  }

  /** The elements of a permutation satisfy the bound the original ones do. */
  lemma PermutedBelow(xs: seq<(nat, nat)>, ys: seq<(nat, nat)>, w: int, h: int)
    requires multiset(ys) == multiset(xs)
    requires forall i :: 0 <= i < |xs| ==> xs[i].0 < w && xs[i].1 < h
    ensures forall k :: 0 <= k < |ys| ==> ys[k].0 < w && ys[k].1 < h
  {
    forall k | 0 <= k < |ys|
      ensures ys[k].0 < w && ys[k].1 < h
    {
      assert ys[k] in multiset(xs);
      var i :| 0 <= i < |xs| && xs[i] == ys[k];
    }
  }

  /** Truncating a non-negative coordinate to eight bits never increases it. */
  lemma ToU8Below(c: (int, int))
    requires c.0 >= 0 && c.1 >= 0
    ensures ToU8(c).0 <= c.0 && ToU8(c).1 <= c.1
  {
  }

  /** Normalised cells have no negative coordinate. */
  lemma NormalizedNonNegative(coords: seq<(int, int)>)
    requires coords != []
    ensures forall i :: 0 <= i < |coords| ==> Normalized(coords)[i].0 >= 0 && Normalized(coords)[i].1 >= 0
  {
    var mx, my := MinOf(Xs(coords)), MinOf(Ys(coords));
    forall i | 0 <= i < |coords|
      ensures Normalized(coords)[i].0 >= 0 && Normalized(coords)[i].1 >= 0
    {
      assert Xs(coords)[i] >= mx && Ys(coords)[i] >= my;
    }
  }

  /** Truncated cells with no negative coordinate lie below the maxima plus one. */
  lemma U8CellsBelow(s: seq<(int, int)>)
    requires s != []
    requires forall i :: 0 <= i < |s| ==> s[i].0 >= 0 && s[i].1 >= 0
    ensures forall i :: 0 <= i < |s| ==>
              U8Cells(s)[i].0 < MaxOf(Xs(s)) + 1 && U8Cells(s)[i].1 < MaxOf(Ys(s)) + 1
  {
    forall i | 0 <= i < |s|
      ensures U8Cells(s)[i].0 < MaxOf(Xs(s)) + 1 && U8Cells(s)[i].1 < MaxOf(Ys(s)) + 1
    {
      ToU8Below(s[i]);
      assert Xs(s)[i] <= MaxOf(Xs(s)) && Ys(s)[i] <= MaxOf(Ys(s));
    }
  }

  /** Every stored cell of a variant lies inside its box. */
  lemma VariantInBox(coords: seq<(int, int)>)
    requires coords != []
    ensures InBox(VariantOf(coords))
  {
    var v := VariantOf(coords);
    var cells := U8Cells(Normalized(coords));
    Sorting.SortByFacts(cells, CellKey);
    NormalizedNonNegative(coords);
    U8CellsBelow(Normalized(coords));
    PermutedBelow(cells, v.cells, v.w, v.h);
  }

  /** Each variant is normalised: before truncation its smallest x and y are
      0, its box is `max x + 1` by `max y + 1`, and every cell lies in that
      box; the stored cells are those cells, truncated to `u8`, in sorted order. */
  lemma VariantOfFacts(coords: seq<(int, int)>)
    requires coords != []
    ensures MinOf(Xs(Normalized(coords))) == 0 && MinOf(Ys(Normalized(coords))) == 0
    ensures VariantOf(coords).w == MaxOf(Xs(Normalized(coords))) + 1
    ensures VariantOf(coords).h == MaxOf(Ys(Normalized(coords))) + 1
    ensures InBox(VariantOf(coords))
    ensures Sorting.SortedBy(VariantOf(coords).cells, CellKey)
    ensures multiset(VariantOf(coords).cells) == multiset(U8Cells(Normalized(coords)))
  {
    NormalizedMins(coords);
    VariantInBox(coords);
    Sorting.SortByFacts(U8Cells(Normalized(coords)), CellKey);
  }

  /** The eight orientations in the order the generator visits them:
      unflipped turns 0 to 3, then flipped turns 0 to 3. */
  function AllOrientations(base: seq<(int, int)>): (r: seq<Variant>)
    requires base != []
    ensures |r| == 8
  {
    seq(8, k requires 0 <= k < 8 => VariantOf(Oriented(base, k >= 4, k % 4)))
  }

  /** Orientation (`flip`, `rot`) sits at place `4 * flip + rot`. */
  lemma AllOrientationsAt(base: seq<(int, int)>, flip: bool, rot: nat)
    requires base != [] && rot < 4
    ensures AllOrientations(base)[(if flip then 4 else 0) + rot] == VariantOf(Oriented(base, flip, rot))
  {
    var k := (if flip then 4 else 0) + rot;
    assert (k >= 4) == flip && k % 4 == rot;
  }

  /** The cell lists of a sequence of variants. */
  function CellsOf(vs: seq<Variant>): set<seq<(nat, nat)>>
  {
    set i | 0 <= i < |vs| :: vs[i].cells
  }

  lemma CellsOfAppend(vs: seq<Variant>, v: Variant)
    ensures CellsOf(vs + [v]) == CellsOf(vs) + {v.cells}
  {
    var e := vs + [v];
    assert forall i :: 0 <= i < |vs| ==> e[i] == vs[i];
    assert e[|vs|] == v;
    forall c | c in CellsOf(e) ensures c in CellsOf(vs) + {v.cells} {
      var i :| 0 <= i < |e| && e[i].cells == c;
    }
  }

  /** The variants, keeping only the first one with each cell list. */
  function Dedup(vs: seq<Variant>): (r: seq<Variant>)
    ensures |r| <= |vs|
  {
    if vs == [] then []
    else
      var d := Dedup(vs[..|vs| - 1]);
      if vs[|vs| - 1].cells in CellsOf(d) then d else d + [vs[|vs| - 1]]
  }

  lemma TakeSnoc<T>(s: seq<T>, k: nat)
    requires k < |s|
    ensures s[..k + 1] == s[..k] + [s[k]]
  {
  }

  lemma TakeAll<T>(s: seq<T>)
    ensures s[..|s|] == s
  {
  }

  lemma DedupSnoc(vs: seq<Variant>, v: Variant)
    ensures Dedup(vs + [v]) == if v.cells in CellsOf(Dedup(vs)) then Dedup(vs) else Dedup(vs) + [v]
  {
    assert (vs + [v])[..|vs|] == vs;
  }

  /** Deduplication keeps only variants from its input, never two with the
      same cells, and at least one with the cells of each input variant. */
  lemma {:induction false} DedupFacts(vs: seq<Variant>)
    ensures forall i :: 0 <= i < |Dedup(vs)| ==> Dedup(vs)[i] in vs
    ensures forall i, j :: 0 <= i < j < |Dedup(vs)| ==> Dedup(vs)[i].cells != Dedup(vs)[j].cells
    ensures forall j :: 0 <= j < |vs| ==> vs[j].cells in CellsOf(Dedup(vs))
  {
    if vs != [] {
      var init := vs[..|vs| - 1];
      DedupFacts(init);
      var d := Dedup(init);
      assert forall j :: 0 <= j < |init| ==> vs[j] == init[j];
      if vs[|vs| - 1].cells !in CellsOf(d) {
        var e := d + [vs[|vs| - 1]];
        assert forall i :: 0 <= i < |d| ==> e[i] == d[i] && d[i].cells in CellsOf(d);
        CellsOfAppend(d, vs[|vs| - 1]);
      }
    }
  }

  /** One orientation turned into a variant: the cells are turned, shifted
      to the origin, truncated to `u8` and sorted. */
  method OrientVariant(base: seq<(int, int)>, flip: bool, rot: nat) returns (v: Variant)
    requires base != [] && rot < 4
    ensures v == VariantOf(Oriented(base, flip, rot))
  {
    var coords := OrientAll(base, flip, rot);
    var norm := Normalize(coords);
    assert Xs(norm)[0] >= 0 && Ys(norm)[0] >= 0;
    var w: nat := MaxOf(Xs(norm)) + 1;
    var h: nat := MaxOf(Ys(norm)) + 1;
    v := Variant(w, h, Sorting.SortBy(U8Cells(norm), CellKey));
  }

  /** Every cell of the shape turned into orientation (`flip`, `rot`). */
  method OrientAll(base: seq<(int, int)>, flip: bool, rot: nat) returns (coords: seq<(int, int)>)
    requires rot < 4
    ensures coords == Oriented(base, flip, rot)
  {
    coords := [];
    for i := 0 to |base|
      invariant coords == Oriented(base, flip, rot)[..i]
    {
      coords := coords + [Orient(base[i], flip, rot)];
    }
  }

  /** Shifts the cells, in place, so that the least x and the least y are 0. */
  method Normalize(coords: seq<(int, int)>) returns (norm: seq<(int, int)>)
    requires coords != []
    ensures norm == Normalized(coords)
  {
    var minX, minY := MinOf(Xs(coords)), MinOf(Ys(coords));
    norm := coords;
    for i := 0 to |norm|
      invariant |norm| == |coords|
      invariant norm[..i] == Normalized(coords)[..i] && norm[i..] == coords[i..]
    {
      assert norm[i] == coords[i];
      norm := norm[i := (norm[i].0 - minX, norm[i].1 - minY)];
    }
  }

  /** `gen_variants`: the distinct orientations of a shape, by cell list,
      each kept at its first appearance. */
  method GenVariants(base: seq<(int, int)>) returns (out: seq<Variant>)
    requires base != []
    ensures out == Dedup(AllOrientations(base))
  {
    var all := AllOrientations(base);
    var seen: set<seq<(nat, nat)>> := {};
    out := [];
    for f := 0 to 2
      invariant out == Dedup(all[..4 * f]) && seen == CellsOf(out)
    {
      var flip := f == 1;
      for rot := 0 to 4
        invariant out == Dedup(all[..4 * f + rot]) && seen == CellsOf(out)
      {
        var v := OrientVariant(base, flip, rot);
        AllOrientationsAt(base, flip, rot);
        var k := 4 * f + rot;
        assert k == (if flip then 4 else 0) + rot;
        TakeSnoc(all, k);
        DedupSnoc(all[..k], v);
        if v.cells !in seen {
          CellsOfAppend(out, v);
          seen := seen + {v.cells};
          out := out + [v];
        }
      }
    }
    TakeAll(all);
  }

  /** The variants of a shape: no two with the same cells, each one an
      orientation of the shape, normalised into its box, and every
      orientation's cells among them (so there are at most eight). */
  lemma VariantsFacts(base: seq<(int, int)>)
    requires base != []
    ensures |Dedup(AllOrientations(base))| <= 8
    ensures forall i, j :: 0 <= i < j < |Dedup(AllOrientations(base))| ==>
              Dedup(AllOrientations(base))[i].cells != Dedup(AllOrientations(base))[j].cells
    ensures forall i :: 0 <= i < |Dedup(AllOrientations(base))| ==>
              Dedup(AllOrientations(base))[i] in AllOrientations(base) && InBox(Dedup(AllOrientations(base))[i])
    ensures forall k :: 0 <= k < 8 ==> AllOrientations(base)[k].cells in CellsOf(Dedup(AllOrientations(base)))
  {
    var all := AllOrientations(base);
    DedupFacts(all);
    AllOrientationsInBox(base);
  }

  /** Every orientation is normalised into its box. */
  lemma AllOrientationsInBox(base: seq<(int, int)>)
    requires base != []
    ensures forall v :: v in AllOrientations(base) ==> InBox(v)
  {
    var all := AllOrientations(base);
    forall v | v in all
      ensures InBox(v)
    {
      var k :| 0 <= k < 8 && all[k] == v;
      OrientationInBox(base, k);
    }
  }

  /** Orientation `k` is normalised into its box. */
  lemma OrientationInBox(base: seq<(int, int)>, k: nat)
    requires base != [] && k < 8
    ensures InBox(AllOrientations(base)[k])
  {
    var o := Oriented(base, k >= 4, k % 4);
    assert AllOrientations(base)[k] == VariantOf(o);
    VariantInBox(o);
  }

  /** `is_region_line`: the text before the first `:`, split at its first
      `x`, gives two non-empty runs of ASCII digits. */
  predicate IsRegionLine(s: string)
  {
    match SplitOnce(s, ':')
    case None => false
    case Some((wh, _)) =>
      match SplitOnce(wh, 'x')
      case None => false
      case Some((w, h)) => w != [] && h != [] && AllDigits(w) && AllDigits(h)
  }

  /** Every region line is `W` `x` `H` `:` followed by anything, with `W` and
      `H` non-empty digit runs. */
  lemma RegionLineParts(s: string) returns (w: string, h: string, rest: string)
    requires IsRegionLine(s)
    ensures s == w + "x" + h + ":" + rest
    ensures w != [] && h != [] && AllDigits(w) && AllDigits(h)
  {
    var (wh, r) := SplitOnce(s, ':').value;
    var (a, b) := SplitOnce(wh, 'x').value;
    w, h, rest := a, b, r;
  }

  /** ... and every such line is a region line. */
  lemma RegionLineOf(w: string, h: string, rest: string)
    requires w != [] && h != [] && AllDigits(w) && AllDigits(h)
    ensures IsRegionLine(w + "x" + h + ":" + rest)
  {
    assert forall k :: 0 <= k < |w| ==> w[k] != 'x' && w[k] != ':';
    SplitOnceJoin(w, 'x', h);
    var wh := w + "x" + h;
    forall k | 0 <= k < |wh|
      ensures wh[k] != ':'
    {
      if k > |w| {
        assert wh[k] == h[k - |w| - 1] && IsDigit(h[k - |w| - 1]);
      }
    }
    SplitOnceJoin(wh, ':', rest);
    assert w + "x" + h + ":" + rest == wh + [':'] + rest;
  }

  /** `strip_suffix(':')`: the label of a shape header line. */
  function ShapeHeader(line: string): (name: Option<string>)
    ensures name.Some? <==> |line| > 0 && line[|line| - 1] == ':'
    ensures name.Some? ==> line == name.value + ":"
  {
    if |line| > 0 && line[|line| - 1] == ':' then Some(line[..|line| - 1]) else None
  }

  /** The end of the block of non-empty lines that starts at `i`. */
  function BlockEnd(ls: seq<string>, i: nat): (j: nat)
    requires i <= |ls|
    ensures i <= j <= |ls| && (j < |ls| ==> |ls[j]| == 0)
    ensures forall k :: i <= k < j ==> |ls[k]| > 0
    decreases |ls| - i
  {
    if i == |ls| || |ls[i]| == 0 then i else BlockEnd(ls, i + 1)
  }

  /** `shapes_map[idx] = Some(grid)`, after growing the map with `None`
      entries when it is too short to hold `idx`. */
  function Record(m: seq<Option<seq<string>>>, idx: nat, grid: seq<string>): (r: seq<Option<seq<string>>>)
    ensures |r| == if idx < |m| then |m| else idx + 1
    ensures r[idx] == Some(grid)
    ensures forall k :: 0 <= k < |r| && k != idx ==> r[k] == if k < |m| then m[k] else None
  {
    var grown := if |m| <= idx then m + seq(idx + 1 - |m|, _ => None) else m;
    grown[idx := Some(grid)]
  }

  /** The shape section, read from line `i` on with the shapes recorded so
      far in `m`: blank lines and lines that are not headers are skipped, a
      header `N:` records the block below it as shape `N`, and the first
      region line ends the section. None when a label is not a number. */
  function ShapeSection(ls: seq<string>, i: nat, m: seq<Option<seq<string>>>): (r: Option<(nat, seq<Option<seq<string>>>)>)
    requires i <= |ls|
    ensures r.Some? ==> i <= r.value.0 <= |ls|
    ensures r.Some? && r.value.0 < |ls| ==> IsRegionLine(ls[r.value.0])
    decreases |ls| - i
  {
    if i == |ls| then Some((i, m))
    else if |ls[i]| == 0 then ShapeSection(ls, i + 1, m)
    else if IsRegionLine(ls[i]) then Some((i, m))
    else
      match ShapeHeader(ls[i])
      case None => ShapeSection(ls, i + 1, m)
      case Some(name) =>
        match ParseUnsigned(name)
        case None => None
        case Some(idx) =>
          var j := BlockEnd(ls, i + 1);
          ShapeSection(ls, j, Record(m, idx, ls[i + 1..j]))
  }

  lemma ShapeSectionSkip(ls: seq<string>, i: nat, m: seq<Option<seq<string>>>)
    requires i < |ls|
    requires |ls[i]| == 0 || (!IsRegionLine(ls[i]) && ShapeHeader(ls[i]).None?)
    ensures ShapeSection(ls, i, m) == ShapeSection(ls, i + 1, m)
  {
  }

  lemma ShapeSectionStop(ls: seq<string>, i: nat, m: seq<Option<seq<string>>>)
    requires i <= |ls|
    requires i == |ls| || (|ls[i]| > 0 && IsRegionLine(ls[i]))
    ensures ShapeSection(ls, i, m) == Some((i, m))
  {
  }

  lemma ShapeSectionHeader(ls: seq<string>, i: nat, m: seq<Option<seq<string>>>)
    requires i < |ls| && |ls[i]| > 0 && !IsRegionLine(ls[i]) && ShapeHeader(ls[i]).Some?
    ensures ParseUnsigned(ShapeHeader(ls[i]).value).None? ==> ShapeSection(ls, i, m) == None
    ensures ParseUnsigned(ShapeHeader(ls[i]).value).Some? ==>
              var j := BlockEnd(ls, i + 1);
              ShapeSection(ls, i, m) == ShapeSection(ls, j, Record(m, ParseUnsigned(ShapeHeader(ls[i]).value).value, ls[i + 1..j]))
  {
  }

  /** The lines of a block, read one by one up to the first empty line. */
  method ReadBlock(ls: seq<string>, start: nat) returns (grid: seq<string>, i: nat)
    requires start <= |ls|
    ensures i == BlockEnd(ls, start) && grid == ls[start..i]
  {
    i := start;
    grid := [];
    while i < |ls| && |ls[i]| > 0
      invariant start <= i <= |ls| && grid == ls[start..i]
      invariant forall k :: start <= k < i ==> |ls[k]| > 0
      decreases |ls| - i
    {
      grid := grid + [ls[i]];
      i := i + 1;
    }
    var j := BlockEnd(ls, start);
    assert !(i < j) && !(j < i);
  }

  /** The first loop of `parse_input`. */
  method ParseShapes(ls: seq<string>) returns (r: Option<(nat, seq<Option<seq<string>>>)>)
    ensures r == ShapeSection(ls, 0, [])
  {
    var m: seq<Option<seq<string>>> := [];
    var i := 0;
    while i < |ls|
      invariant i <= |ls|
      invariant ShapeSection(ls, i, m) == ShapeSection(ls, 0, [])
      decreases |ls| - i
    {
      var line := ls[i];
      if |line| == 0 {
        ShapeSectionSkip(ls, i, m);
        i := i + 1;
        continue;
      }
      if IsRegionLine(line) {
        ShapeSectionStop(ls, i, m);
        return Some((i, m));
      }
      var header := ShapeHeader(line);
      if header.Some? {
        ShapeSectionHeader(ls, i, m);
        var idx := ParseUnsigned(header.value);
        if idx.None? {
          return None;
        }
        var grid;
        grid, i := ReadBlock(ls, i + 1);
        m := Record(m, idx.value, grid);
      } else {
        ShapeSectionSkip(ls, i, m);
        i := i + 1;
      }
    }
    ShapeSectionStop(ls, i, m);
    return Some((i, m));
  }

  /** The cells `#` of one row `y`, left to right. */
  function RowCells(row: string, y: nat): seq<(int, int)>
  {
    if row == [] then []
    else RowCells(row[..|row| - 1], y) + if row[|row| - 1] == '#' then [(|row| - 1, y)] else []
  }

  /** The cells `#` of a grid, row by row, as `(x, y)`. */
  function GridCells(grid: seq<string>): seq<(int, int)>
  {
    if grid == [] then []
    else GridCells(grid[..|grid| - 1]) + RowCells(grid[|grid| - 1], |grid| - 1)
  }

  /** Every cell of the row is a `#` of row `y`. */
  lemma {:induction false} RowCellsSound(row: string, y: nat)
    ensures forall k :: 0 <= k < |RowCells(row, y)| ==>
              RowCells(row, y)[k].1 == y && 0 <= RowCells(row, y)[k].0 < |row| && row[RowCells(row, y)[k].0] == '#'
    decreases |row|
  {
    if row != [] {
      var init := row[..|row| - 1];
      RowCellsSound(init, y);
      assert forall x :: 0 <= x < |init| ==> init[x] == row[x];
    }
  }

  /** Every cell of the grid is a `#` at its place: no cell is invented. */
  lemma {:induction false} GridCellsSound(grid: seq<string>)
    ensures forall k :: 0 <= k < |GridCells(grid)| ==>
              var (x, y) := GridCells(grid)[k];
              0 <= y < |grid| && 0 <= x < |grid[y]| && grid[y][x] == '#'
    decreases |grid|
  {
    if grid != [] {
      var init := grid[..|grid| - 1];
      GridCellsSound(init);
      RowCellsSound(grid[|grid| - 1], |grid| - 1);
      assert forall y :: 0 <= y < |init| ==> init[y] == grid[y];
    }
  }

  /** Every `#` of the row is among its cells. */
  lemma {:induction false} RowCellsComplete(row: string, y: nat, x: nat)
    requires x < |row| && row[x] == '#'
    ensures (x as int, y as int) in RowCells(row, y)
    decreases |row|
  {
    if x < |row| - 1 {
      RowCellsComplete(row[..|row| - 1], y, x);
    }
  }

  /** Every `#` of the grid is among its cells. */
  lemma {:induction false} GridCellsComplete(grid: seq<string>, x: nat, y: nat)
    requires y < |grid| && x < |grid[y]| && grid[y][x] == '#'
    ensures (x as int, y as int) in GridCells(grid)
    decreases |grid|
  {
    if y < |grid| - 1 {
      assert grid[..|grid| - 1][y] == grid[y];
      GridCellsComplete(grid[..|grid| - 1], x, y);
    } else {
      RowCellsComplete(grid[y], y, x);
    }
  }

  /** The cell-collecting loops of `parse_input` for one shape. */
  method ReadCells(grid: seq<string>) returns (cells: seq<(int, int)>)
    ensures cells == GridCells(grid)
  {
    cells := [];
    for y := 0 to |grid|
      invariant cells == GridCells(grid[..y])
    {
      var row := grid[y];
      for x := 0 to |row|
        invariant cells == GridCells(grid[..y]) + RowCells(row[..x], y)
      {
        assert row[..x + 1][..x] == row[..x];
        if row[x] == '#' {
          cells := cells + [(x, y)];
        }
      }
      assert row[..|row|] == row;
      assert grid[..y + 1][..y] == grid[..y];
    }
    assert grid[..|grid|] == grid;
  }

  /** A region: its size and how many pieces of each shape it must hold. */
  datatype Region = Region(w: nat, h: nat, counts: seq<nat>)

  /** `s.parse::<u8>()` */
  function ParseCount(s: string): (r: Option<nat>)
    ensures r.Some? ==> r.value < 256
  {
    match ParseUnsigned(s)
    case Some(n) => if n < 256 then Some(n) else None
    case None => None
  }

  /** At least `n` counts, each a `u8`. */
  predicate CountsFor(r: Region, n: nat)
  {
    |r.counts| >= n && forall k :: 0 <= k < |r.counts| ==> r.counts[k] < 256
  }

  /** One region line: the size before the `:`, then the counts, padded
      with zeros up to `n` shapes. None when a count is not a `u8`. */
  function ParseRegion(line: string, n: nat): (r: Option<Region>)
    ensures r.Some? ==> CountsFor(r.value, n)
  {
    match SplitOnce(line, ':')
    case None => None
    case Some((wh, rest)) =>
      match SplitOnce(wh, 'x')
      case None => None
      case Some((ws, hs)) =>
        match (ParseUnsigned(ws), ParseUnsigned(hs), AllSome(SplitWhitespace(rest), ParseCount))
        case (Some(w), Some(h), Some(counts)) =>
          ParsedCountsBounded(SplitWhitespace(rest));
          Some(Region(w, h, PadCounts(counts, n)))
        case _ => None
  }

  /** Every count parsed is a `u8`. */
  lemma ParsedCountsBounded(words: seq<string>)
    ensures AllSome(words, ParseCount).Some? ==>
      forall k :: 0 <= k < |AllSome(words, ParseCount).value| ==> AllSome(words, ParseCount).value[k] < 256
  {
    AllSomeEach(words, ParseCount);
  }

  /** The counts, padded with zeros up to `n` entries. */
  function PadCounts(counts: seq<nat>, n: nat): (r: seq<nat>)
    ensures |r| >= n && |r| >= |counts|
    ensures forall k :: 0 <= k < |r| ==> r[k] == if k < |counts| then counts[k] else 0
  {
    if |counts| < n then counts + seq(n - |counts|, _ => 0) else counts
  }

  /** The region section from line `i` on: every region line, in order;
      other lines are skipped. None when one of them does not parse. */
  function RegionsFrom(ls: seq<string>, i: nat, n: nat): Option<seq<Region>>
    requires i <= |ls|
    decreases |ls| - i
  {
    if i == |ls| then Some([])
    else if |ls[i]| == 0 || !IsRegionLine(ls[i]) then RegionsFrom(ls, i + 1, n)
    else
      match (ParseRegion(ls[i], n), RegionsFrom(ls, i + 1, n))
      case (Some(r), Some(rs)) => Some([r] + rs)
      case _ => None
  }

  function Prepend(acc: seq<Region>, rs: Option<seq<Region>>): Option<seq<Region>>
  {
    if rs.Some? then Some(acc + rs.value) else None
  }

  lemma PrependNil(rs: Option<seq<Region>>)
    ensures Prepend([], rs) == rs
  {
    if rs.Some? {
      assert [] + rs.value == rs.value;
    }
  }

  lemma PrependTwice(a: seq<Region>, b: seq<Region>, rs: Option<seq<Region>>)
    ensures Prepend(a, Prepend(b, rs)) == Prepend(a + b, rs)
  {
    if rs.Some? {
      assert a + (b + rs.value) == (a + b) + rs.value;
    }
  }

  lemma RegionsFromSkip(ls: seq<string>, i: nat, n: nat)
    requires i < |ls| && (|ls[i]| == 0 || !IsRegionLine(ls[i]))
    ensures RegionsFrom(ls, i, n) == RegionsFrom(ls, i + 1, n)
  {
  }

  lemma RegionsFromCons(ls: seq<string>, i: nat, n: nat)
    requires i < |ls| && |ls[i]| > 0 && IsRegionLine(ls[i]) && RegionsFrom(ls, i, n).Some?
    ensures ParseRegion(ls[i], n).Some? && RegionsFrom(ls, i + 1, n).Some?
    ensures RegionsFrom(ls, i, n).value == [ParseRegion(ls[i], n).value] + RegionsFrom(ls, i + 1, n).value
  {
  }

  lemma RegionsFromFail(ls: seq<string>, i: nat, n: nat)
    requires i < |ls| && |ls[i]| > 0 && IsRegionLine(ls[i]) && ParseRegion(ls[i], n).None?
    ensures RegionsFrom(ls, i, n) == None
  {
  }

  lemma RegionsFromRegion(ls: seq<string>, i: nat, n: nat, regions: seq<Region>, all: Option<seq<Region>>)
    requires i < |ls| && |ls[i]| > 0 && IsRegionLine(ls[i]) && ParseRegion(ls[i], n).Some?
    requires all == Prepend(regions, RegionsFrom(ls, i, n))
    ensures all == Prepend(regions + [ParseRegion(ls[i], n).value], RegionsFrom(ls, i + 1, n))
  {
    PrependTwice(regions, [ParseRegion(ls[i], n).value], RegionsFrom(ls, i + 1, n));
  }

  lemma RegionsFromEnd(ls: seq<string>, n: nat, regions: seq<Region>)
    ensures Prepend(regions, RegionsFrom(ls, |ls|, n)) == Some(regions)
  {
    assert regions + [] == regions;
  }

  /** The second loop of `parse_input`. */
  method ParseRegions(ls: seq<string>, start: nat, n: nat) returns (r: Option<seq<Region>>)
    requires start <= |ls|
    ensures r == RegionsFrom(ls, start, n)
  {
    var regions: seq<Region> := [];
    var i := start;
    PrependNil(RegionsFrom(ls, start, n));
    while i < |ls|
      invariant start <= i <= |ls|
      invariant RegionsFrom(ls, start, n) == Prepend(regions, RegionsFrom(ls, i, n))
      decreases |ls| - i
    {
      var line := ls[i];
      i := i + 1;
      if |line| == 0 || !IsRegionLine(line) {
        RegionsFromSkip(ls, i - 1, n);
        continue;
      }
      var region := ParseRegion(line, n);
      if region.None? {
        RegionsFromFail(ls, i - 1, n);
        return None;
      }
      RegionsFromRegion(ls, i - 1, n, regions, RegionsFrom(ls, start, n));
      regions := regions + [region.value];
    }
    RegionsFromEnd(ls, n, regions);
    r := Some(regions);
  }

  /** `input.lines()` with each line trimmed. */
  function TrimmedLines(input: string): (ls: seq<string>)
    ensures |ls| == |Lines(input)|
  {
    seq(|Lines(input)|, k requires 0 <= k < |Lines(input)| => Trim(Lines(input)[k]))
  }

  /** `opt.unwrap()` on one slot of the shape table: a label that no header
      filled is a failure, a filled slot gives its grid. */
  function UnwrapGrid(slot: Option<seq<string>>): Option<seq<string>>
  {
    slot
  }

  /** `parse_input`: the cells of every shape, indexed by label, and the
      regions. None where the source panics: a label that is not a number,
      a label missing between 0 and the largest, or a count that is not a
      `u8`. */
  function ParsedInput(input: string): Option<(seq<seq<(int, int)>>, seq<Region>)>
  {
    var ls := TrimmedLines(input);
    match ShapeSection(ls, 0, [])
    case None => None
    case Some((i, m)) =>
      match AllSome(m, UnwrapGrid)
      case None => None
      case Some(grids) =>
        match RegionsFrom(ls, i, |grids|)
        case None => None
        case Some(rs) => Some((AllGridCells(grids), rs))
  }

  /** The cells of each grid, in label order. */
  function AllGridCells(grids: seq<seq<string>>): seq<seq<(int, int)>>
  {
    seq(|grids|, k requires 0 <= k < |grids| => GridCells(grids[k]))
  }

  /** Reads the cells of every grid, one after the other. */
  method ReadAllCells(grids: seq<seq<string>>) returns (raw: seq<seq<(int, int)>>)
    ensures raw == AllGridCells(grids)
  {
    raw := [];
    for k := 0 to |grids|
      invariant raw == seq(k, j requires 0 <= j < k => GridCells(grids[j]))
    {
      var cells := ReadCells(grids[k]);
      raw := raw + [cells];
    }
  }

  method ParseInput(input: string) returns (r: Option<(seq<seq<(int, int)>>, seq<Region>)>)
    ensures r == ParsedInput(input)
  {
    var ls := TrimmedLines(input);
    var section := ParseShapes(ls);
    if section.None? {
      return None;
    }
    var (i, m) := section.value;
    var grids := AllSome(m, UnwrapGrid);
    if grids.None? {
      return None;
    }
    var raw := ReadAllCells(grids.value);
    var regions := ParseRegions(ls, i, |raw|);
    if regions.None? {
      return None;
    }
    r := Some((raw, regions.value));
  }

  /** The parsed puzzle: the shapes by label and the regions in input order. */
  datatype Day = Day(shapes: seq<Shape>, regions: seq<Region>)

  /** A shape built from its cells: their number and its distinct orientations. */
  function ShapeOf(cells: seq<(int, int)>): Shape
    requires cells != []
  {
    Shape(|cells|, Dedup(AllOrientations(cells)))
  }

  /** The shapes built from their cells; None when one has no cells (the
      minimum of no coordinates panics). */
  function ShapesOf(raw: seq<seq<(int, int)>>): Option<seq<Shape>>
  {
    if exists k :: 0 <= k < |raw| && |raw[k]| == 0 then None
    else Some(seq(|raw|, k requires 0 <= k < |raw| => ShapeOf(raw[k])))
  }

  /** `Day::create`: None where the source panics. */
  function DayOf(input: string): Option<Day>
  {
    match ParsedInput(input)
    case None => None
    case Some((raw, regions)) =>
      match ShapesOf(raw)
      case None => None
      case Some(shapes) => Some(Day(shapes, regions))
  }

  lemma ShapesOfNone(raw: seq<seq<(int, int)>>, k: nat)
    requires k < |raw| && |raw[k]| == 0
    ensures ShapesOf(raw) == None
  {
  }

  lemma ShapesOfSome(raw: seq<seq<(int, int)>>, shapes: seq<Shape>)
    requires Built(raw, shapes)
    ensures ShapesOf(raw) == Some(shapes)
  {
    assert !exists k :: 0 <= k < |raw| && |raw[k]| == 0;
    var built := ShapesOf(raw).value;
    assert |built| == |shapes|;
    assert forall k :: 0 <= k < |raw| ==> built[k] == shapes[k];
    assert built == shapes;
  }

  /** One shape of `create`: its cell count and its variants. */
  method MakeShape(cells: seq<(int, int)>) returns (shape: Shape)
    requires cells != []
    ensures shape == ShapeOf(cells)
  {
    var variants := GenVariants(cells);
    shape := Shape(|cells|, variants);
  }

  /** The loop of `create` over the parsed shapes. */
  method BuildShapes(raw: seq<seq<(int, int)>>) returns (r: Option<seq<Shape>>)
    ensures r == ShapesOf(raw)
  {
    var shapes: seq<Shape> := [];
    for k := 0 to |raw|
      invariant Built(raw[..k], shapes)
    {
      if |raw[k]| == 0 {
        ShapesOfNone(raw, k);
        return None;
      }
      var shape := MakeShape(raw[k]);
      BuiltSnoc(raw, k, shapes, shape);
      shapes := shapes + [shape];
    }
    assert raw[..|raw|] == raw;
    ShapesOfSome(raw, shapes);
    r := Some(shapes);
  }

  /** `shapes` are the shapes of the cell lists `raw`, none of them empty. */
  predicate Built(raw: seq<seq<(int, int)>>, shapes: seq<Shape>)
  {
    |shapes| == |raw| && forall j :: 0 <= j < |raw| ==> |raw[j]| > 0 && shapes[j] == ShapeOf(raw[j])
  }

  lemma BuiltSnoc(raw: seq<seq<(int, int)>>, k: nat, shapes: seq<Shape>, shape: Shape)
    requires k < |raw| && raw[k] != [] && Built(raw[..k], shapes) && shape == ShapeOf(raw[k])
    ensures Built(raw[..k + 1], shapes + [shape])
  {
    var r1, s1 := raw[..k + 1], shapes + [shape];
    forall j | 0 <= j < |r1|
      ensures |r1[j]| > 0 && s1[j] == ShapeOf(r1[j])
    {
      if j < k {
        assert r1[j] == raw[..k][j] && s1[j] == shapes[j];
      } else {
        assert r1[j] == raw[k] && s1[j] == shape;
      }
    }
  }

  method Create(input: string) returns (r: Option<Day>)
    ensures r == DayOf(input)
  {
    var parsed := ParseInput(input);
    if parsed.None? {
      return None;
    }
    var (raw, regions) := parsed.value;
    var shapes := BuildShapes(raw);
    if shapes.None? {
      return None;
    }
    r := Some(Day(shapes.value, regions));
  }

  /** Every variant of every shape lies inside its box. */
  predicate ShapesInBox(shapes: seq<Shape>)
  {
    forall i, k :: 0 <= i < |shapes| && 0 <= k < |shapes[i].variants| ==> InBox(shapes[i].variants[k])
  }

  /** Every region read has a `u8` count for each shape, at least. */
  lemma {:induction false} RegionsFromCounts(ls: seq<string>, i: nat, n: nat)
    requires i <= |ls| && RegionsFrom(ls, i, n).Some?
    ensures AllCountsFor(RegionsFrom(ls, i, n).value, n)
    decreases |ls| - i
  {
    if i < |ls| {
      if |ls[i]| == 0 || !IsRegionLine(ls[i]) {
        RegionsFromSkip(ls, i, n);
        RegionsFromCounts(ls, i + 1, n);
      } else {
        RegionsFromCons(ls, i, n);
        RegionsFromCounts(ls, i + 1, n);
        AllCountsForCons(ParseRegion(ls[i], n).value, RegionsFrom(ls, i + 1, n).value, n);
      }
    }
  }

  /** Every region has a `u8` count for each of `n` shapes, at least. */
  predicate AllCountsFor(rs: seq<Region>, n: nat)
  {
    forall j :: 0 <= j < |rs| ==> CountsFor(rs[j], n)
  }

  lemma AllCountsForCons(r: Region, rs: seq<Region>, n: nat)
    requires CountsFor(r, n) && AllCountsFor(rs, n)
    ensures AllCountsFor([r] + rs, n)
  {
    forall j | 0 <= j < |[r] + rs|
      ensures CountsFor(([r] + rs)[j], n)
    {
      if j > 0 {
        assert ([r] + rs)[j] == rs[j - 1];
      }
    }
  }

  /** What `create` builds: shapes with cells whose variants lie in their
      boxes, and regions with a `u8` count for every shape. */
  lemma DayOfFacts(input: string)
    requires DayOf(input).Some?
    ensures ShapesInBox(DayOf(input).value.shapes)
    ensures forall k :: 0 <= k < |DayOf(input).value.shapes| ==> DayOf(input).value.shapes[k].area > 0
    ensures AllCountsFor(DayOf(input).value.regions, |DayOf(input).value.shapes|)
  {
    var ls := TrimmedLines(input);
    var (i, m) := ShapeSection(ls, 0, []).value;
    var grids := AllSome(m, UnwrapGrid).value;
    var (raw, regions) := ParsedInput(input).value;
    var d := DayOf(input).value;
    assert d.shapes == ShapesOf(raw).value && d.regions == regions;
    RegionsFromCounts(ls, i, |grids|);
    forall q, k | 0 <= q < |d.shapes| && 0 <= k < |d.shapes[q].variants|
      ensures InBox(d.shapes[q].variants[k])
    {
      ShapesOfAt(raw, q);
      VariantsFacts(raw[q]);
    }
    forall q | 0 <= q < |d.shapes|
      ensures d.shapes[q].area > 0
    {
      ShapesOfAt(raw, q);
    }
  }

  lemma ShapesOfAt(raw: seq<seq<(int, int)>>, q: nat)
    requires ShapesOf(raw).Some? && q < |raw|
    ensures |ShapesOf(raw).value| == |raw| && raw[q] != [] && ShapesOf(raw).value[q] == ShapeOf(raw[q])
  {
  }

  /** The area the counted pieces need together. */
  function Needed(counts: seq<nat>, shapes: seq<Shape>): nat
    requires |counts| <= |shapes|
  {
    if counts == [] then 0 else Needed(counts[..|counts| - 1], shapes) + counts[|counts| - 1] * shapes[|counts| - 1].area
  }

  /** The placement lists the search is given: every placement of each shape
      the region needs, and none for the others. */
  function RegionLists(region: Region, shapes: seq<Shape>): (ps: seq<seq<Placement>>)
    requires |region.counts| == |shapes|
    ensures |ps| == |shapes|
  {
    seq(|shapes|, i requires 0 <= i < |shapes| =>
                  if region.counts[i] == 0 then [] else Placements(region.w, region.h, shapes[i].variants))
  }

  /** `vec![0u64; words]` */
  function EmptyGrid(words: nat): (occ: seq<Word>)
    ensures |occ| == words
  {
    seq(words, _ => {})
  }

  lemma RegionListsWellFormed(region: Region, shapes: seq<Shape>)
    requires |region.counts| == |shapes| && ShapesInBox(shapes)
    ensures AllWellFormed(RegionLists(region, shapes), Words(region.w, region.h))
  {
    var ps := RegionLists(region, shapes);
    forall t | 0 <= t < |ps|
      ensures forall j :: 0 <= j < |ps[t]| ==> WellFormed(ps[t][j], Words(region.w, region.h))
    {
      PlacementsWellFormed(region.w, region.h, shapes[t].variants);
    }
  }

  /** A region fits its pieces: it asks for a count for each shape, the
      pieces' area does not exceed its own, and from the empty grid the
      pieces can all be placed without overlap. */
  ghost predicate CanFit(region: Region, shapes: seq<Shape>)
    requires ShapesInBox(shapes)
  {
    |region.counts| == |shapes| && Needed(region.counts, shapes) <= region.w * region.h
    && (RegionListsWellFormed(region, shapes);
        Packable(RegionLists(region, shapes), EmptyGrid(Words(region.w, region.h)), region.counts))
  }

  /** A needed shape with no placement at all makes the region unpackable. */
  lemma NoPlacementNoFit(region: Region, shapes: seq<Shape>, i: nat)
    requires |region.counts| == |shapes| && ShapesInBox(shapes)
    requires i < |shapes| && region.counts[i] > 0 && Placements(region.w, region.h, shapes[i].variants) == []
    ensures !CanFit(region, shapes)
  {
    RegionListsWellFormed(region, shapes);
    Exhausted(RegionLists(region, shapes), EmptyGrid(Words(region.w, region.h)), region.counts, i);
  }

  /** The placement map holds the placement list of shape `i` in a `w` by
      `h` region. */
  predicate Listed(pm: map<(nat, nat, nat), seq<Placement>>, w: nat, h: nat, i: nat, shape: Shape)
  {
    (w, h, i) in pm && pm[(w, h, i)] == Placements(w, h, shape.variants)
  }

  /** The placement lists of the needed types, and those types in order;
      or the first needed type that has no placement at all. */
  method GatherPlacements(region: Region, shapes: seq<Shape>, pm: map<(nat, nat, nat), seq<Placement>>)
    returns (placements: seq<seq<Placement>>, types: seq<nat>, missing: Option<nat>)
    requires |region.counts| == |shapes|
    requires forall i :: 0 <= i < |shapes| && i < |region.counts| && region.counts[i] != 0 ==>
               Listed(pm, region.w, region.h, i, shapes[i])
    ensures missing.Some? ==>
      missing.value < |shapes| && region.counts[missing.value] > 0
      && Placements(region.w, region.h, shapes[missing.value].variants) == []
    ensures missing.None? ==>
      placements == RegionLists(region, shapes)
      && (forall k :: 0 <= k < |types| ==> types[k] < |shapes|)
      && (forall t :: 0 <= t < |shapes| && region.counts[t] > 0 ==> t in types)
  {
    placements, types, missing := seq(|shapes|, _ => []), [], None;
    for i := 0 to |region.counts|
      invariant |placements| == |shapes|
      invariant forall t :: 0 <= t < i ==> placements[t] == RegionLists(region, shapes)[t]
      invariant forall t :: i <= t < |shapes| ==> placements[t] == []
      invariant forall k :: 0 <= k < |types| ==> types[k] < i
      invariant forall t :: 0 <= t < i && region.counts[t] > 0 ==> t in types
    {
      if region.counts[i] == 0 {
        continue;
      }
      var plist := pm[(region.w, region.h, i)];
      if plist == [] {
        return placements, types, Some(i);
      }
      placements := placements[i := plist];
      types := types + [i];
    }
    assert placements == RegionLists(region, shapes);
  }

  /** `region_can_fit`: the region fits its pieces. The placement map holds
      the list of every shape the region needs, as `solve_part_1` builds it. */
  method RegionCanFit(region: Region, shapes: seq<Shape>, pm: map<(nat, nat, nat), seq<Placement>>) returns (fit: bool)
    requires ShapesInBox(shapes)
    requires forall i :: 0 <= i < |shapes| && i < |region.counts| && region.counts[i] != 0 ==>
               Listed(pm, region.w, region.h, i, shapes[i])
    ensures fit == CanFit(region, shapes)
  {
    if |region.counts| != |shapes| {
      return false;
    }
    var boardCells := region.w * region.h;
    if Needed(region.counts, shapes) > boardCells {
      return false;
    }
    var placements, types, missing := GatherPlacements(region, shapes, pm);
    if missing.Some? {
      NoPlacementNoFit(region, shapes, missing.value);
      return false;
    }
    var words := (boardCells + 63) / 64;
    var occ := new Word[words](_ => {});
    var remaining := new nat[|region.counts|](k requires 0 <= k < |region.counts| => region.counts[k]);
    var piecesLeft := Total(region.counts);
    RegionListsWellFormed(region, shapes);
    assert occ[..] == EmptyGrid(Words(region.w, region.h));
    assert remaining[..] == region.counts;
    var memo;
    fit, memo := DfsPack(occ, remaining, placements, types, piecesLeft, {});
  }

  /** A region asks for a piece of a shape that does not exist. */
  predicate Overflows(day: Day)
  {
    exists k, i :: 0 <= k < |day.regions| && |day.shapes| <= i < |day.regions[k].counts| && day.regions[k].counts[i] != 0
  }

  /** The number of regions that fit their pieces. */
  ghost function CountFitting(regions: seq<Region>, shapes: seq<Shape>): nat
    requires ShapesInBox(shapes)
  {
    if regions == [] then 0
    else CountFitting(regions[..|regions| - 1], shapes) + if CanFit(regions[|regions| - 1], shapes) then 1 else 0
  }

  /** `used` marks every shape the region asks for. */
  predicate Marked(region: Region, used: seq<bool>)
  {
    forall i :: 0 <= i < |region.counts| && region.counts[i] != 0 ==> i < |used| && used[i]
  }

  /** `used` marks every shape some region among the first `k` asks for. */
  predicate MarksUsed(regions: seq<Region>, k: nat, used: seq<bool>)
    requires k <= |regions|
  {
    forall q :: 0 <= q < k ==> Marked(regions[q], used)
  }

  /** Marking one more shape keeps every mark. */
  lemma MarksUsedMark(regions: seq<Region>, k: nat, used: seq<bool>, m: nat)
    requires k <= |regions| && MarksUsed(regions, k, used) && m < |used|
    ensures MarksUsed(regions, k, used[m := true])
  {
    forall q | 0 <= q < k
      ensures Marked(regions[q], used[m := true])
    {
      assert Marked(regions[q], used);
    }
  }

  /** With every mark in place no region asks for a missing shape. */
  lemma NoOverflow(day: Day, used: seq<bool>)
    requires |used| == |day.shapes| && MarksUsed(day.regions, |day.regions|, used)
    ensures !Overflows(day)
  {
    forall q, j | 0 <= q < |day.regions| && 0 <= j < |day.regions[q].counts| && day.regions[q].counts[j] != 0
      ensures j < |day.shapes|
    {
      assert Marked(day.regions[q], used);
    }
  }

  /** The first loop of `solve_part_1`: the region sizes and the shapes some
      region asks for. None where a region asks for a shape that does not
      exist. */
  method UsedShapes(day: Day) returns (r: Option<(seq<bool>, set<(nat, nat)>)>)
    ensures r.None? <==> Overflows(day)
    ensures r.Some? ==> |r.value.0| == |day.shapes| && MarksUsed(day.regions, |day.regions|, r.value.0)
    ensures r.Some? ==> forall q :: 0 <= q < |day.regions| ==> (day.regions[q].w, day.regions[q].h) in r.value.1
  {
    var used := seq(|day.shapes|, _ => false);
    var sizes: set<(nat, nat)> := {};
    for k := 0 to |day.regions|
      invariant |used| == |day.shapes|
      invariant forall q :: 0 <= q < k ==> (day.regions[q].w, day.regions[q].h) in sizes
      invariant MarksUsed(day.regions, k, used)
    {
      var region := day.regions[k];
      sizes := sizes + {(region.w, region.h)};
      for i := 0 to |region.counts|
        invariant |used| == |day.shapes|
        invariant MarksUsed(day.regions, k, used)
        invariant forall i' :: 0 <= i' < i && region.counts[i'] != 0 ==> i' < |used| && used[i']
      {
        if region.counts[i] != 0 {
          if i >= |used| {
            assert 0 <= k < |day.regions| && |day.shapes| <= i < |day.regions[k].counts| && day.regions[k].counts[i] != 0;
            return None;
          }
          MarksUsedMark(day.regions, k, used, i);
          used := used[i := true];
        }
      }
      assert Marked(region, used);
    }
    NoOverflow(day, used);
    return Some((used, sizes));
  }

  /** The second loop of `solve_part_1`: the placement list of every used
      shape in every region size. */
  method PlacementMap(shapes: seq<Shape>, used: seq<bool>, sizes: set<(nat, nat)>)
    returns (pm: map<(nat, nat, nat), seq<Placement>>)
    requires |used| == |shapes|
    ensures forall s, i :: s in sizes && 0 <= i < |shapes| && used[i] ==> Listed(pm, s.0, s.1, i, shapes[i])
  {
    pm := map[];
    var todo := sizes;
    while todo != {}
      invariant todo <= sizes
      invariant forall s, i :: s in sizes && s !in todo && 0 <= i < |shapes| && used[i] ==> Listed(pm, s.0, s.1, i, shapes[i])
      decreases |todo|
    {
      var s :| s in todo;
      for i := 0 to |shapes|
        invariant forall s', i' :: s' in sizes && s' !in todo && 0 <= i' < |shapes| && used[i'] ==> Listed(pm, s'.0, s'.1, i', shapes[i'])
        invariant forall i' :: 0 <= i' < i && used[i'] ==> Listed(pm, s.0, s.1, i', shapes[i'])
      {
        if !used[i] {
          continue;
        }
        var plist := Generate(s.0, s.1, shapes[i]);
        pm := pm[(s.0, s.1, i) := plist];
      }
      todo := todo - {s};
    }
  }

  /** `solve_part_1`: the number of regions that fit their pieces. None where
      the source indexes past its list of shapes. */
  method SolvePart1(day: Day) returns (r: Option<nat>)
    requires ShapesInBox(day.shapes)
    ensures r.None? <==> Overflows(day)
    ensures r.Some? ==> r.value == CountFitting(day.regions, day.shapes)
  {
    var marks := UsedShapes(day);
    if marks.None? {
      return None;
    }
    var (used, sizes) := marks.value;
    var pm := PlacementMap(day.shapes, used, sizes);
    var count := 0;
    for k := 0 to |day.regions|
      invariant count == CountFitting(day.regions[..k], day.shapes)
    {
      var region := day.regions[k];
      assert Marked(region, used);
      var fit := RegionCanFit(region, day.shapes, pm);
      if fit {
        count := count + 1;
      }
      assert day.regions[..k + 1][..k] == day.regions[..k];
    }
    assert day.regions[..|day.regions|] == day.regions;
    return Some(count);
  }

  /** `solve_part_2`: the puzzle has no second part. */
  function SolvePart2(day: Day): string
  {
    "Day 12 has no part 2"
  }
}
