// Fresh ingredient ids: a list of inclusive id ranges and a list of
// available ids. Part 1 counts the available ids inside some range, part 2
// the number of ids the ranges cover. The ranges are merged into a
// canonical set of disjoint, non-adjacent intervals, the behaviour of
// `RangeInclusiveSet` from the `rangemap` crate.
module Day05 {
  import opened Text

  /** An inclusive range `lo..=hi`. */
  datatype Range = Range(lo: nat, hi: nat)

  predicate InRange(r: Range, x: int) { r.lo <= x <= r.hi }

  predicate WellFormed(ranges: seq<Range>)
  {
    forall i :: 0 <= i < |ranges| ==> ranges[i].lo <= ranges[i].hi
  }

  // ------------------------------------------------------------ the range set

  /** Sorted, non-empty intervals with a gap of at least one id between
      neighbours: the only shape a `RangeInclusiveSet` stores. */
  predicate Canonical(rs: seq<Range>)
  {
    rs == [] || (rs[0].lo <= rs[0].hi && (|rs| == 1 || rs[0].hi + 1 < rs[1].lo) && Canonical(rs[1..]))
  }

  /** `RangeInclusiveSet::contains`. */
  predicate Contains(rs: seq<Range>, x: int)
  {
    rs != [] && (InRange(rs[0], x) || Contains(rs[1..], x))
  }

  function Min(a: nat, b: nat): nat { if a <= b then a else b }
  function Max(a: nat, b: nat): nat { if a <= b then b else a }

  /** `RangeInclusiveSet::insert`: the new range absorbs every interval it
      overlaps or touches; the result is canonical again and contains
      exactly the old ids and those of `r`. */
  function Insert(rs: seq<Range>, r: Range): (out: seq<Range>)
    requires Canonical(rs) && r.lo <= r.hi
    ensures Canonical(out)
    ensures out != [] && out[0].lo == (if rs == [] then r.lo else Min(r.lo, rs[0].lo))
    ensures forall x :: Contains(out, x) <==> Contains(rs, x) || InRange(r, x)
    decreases |rs|
  {
    if rs == [] then [r]
    else if r.hi + 1 < rs[0].lo then [r] + rs
    else if rs[0].hi + 1 < r.lo then
      var rest := Insert(rs[1..], r);
      assert ([rs[0]] + rest)[1..] == rest;
      [rs[0]] + rest
    else
      var merged := Range(Min(r.lo, rs[0].lo), Max(r.hi, rs[0].hi));
      Insert(rs[1..], merged)
  }

  /** The set built by inserting the ranges one after another. */
  function RangeSetOf(ranges: seq<Range>): (rs: seq<Range>)
    requires WellFormed(ranges)
    ensures Canonical(rs)
  {
    if ranges == [] then [] else Insert(RangeSetOf(ranges[..|ranges| - 1]), ranges[|ranges| - 1])
  }

  /** Some input range holds `x`. */
  predicate InAny(ranges: seq<Range>, x: int)
  {
    exists i :: 0 <= i < |ranges| && InRange(ranges[i], x)
  }

  /** The set contains exactly the ids of the input ranges. */
  lemma {:induction false} RangeSetOfContains(ranges: seq<Range>, x: int)
    requires WellFormed(ranges)
    ensures Contains(RangeSetOf(ranges), x) <==> InAny(ranges, x)
  {
    if ranges != [] {
      var init := ranges[..|ranges| - 1];
      RangeSetOfContains(init, x);
      if InAny(ranges, x) && !InRange(ranges[|ranges| - 1], x) {
        var i :| 0 <= i < |ranges| && InRange(ranges[i], x);
        assert init[i] == ranges[i];
      }
      if InAny(init, x) {
        var i :| 0 <= i < |init| && InRange(init[i], x);
        assert ranges[i] == init[i];
      }
    }
  }

  /** `build_range_set`: insert every fresh range into an empty set. */
  method BuildRangeSet(ranges: seq<Range>) returns (rs: seq<Range>)
    requires WellFormed(ranges)
    ensures rs == RangeSetOf(ranges)
    ensures Canonical(rs)
    ensures forall x :: Contains(rs, x) <==> InAny(ranges, x)
  {
    rs := [];
    for i := 0 to |ranges|
      invariant rs == RangeSetOf(ranges[..i])
    {
      assert ranges[..i + 1][..i] == ranges[..i];
      rs := Insert(rs, ranges[i]);
    }
    assert ranges[..|ranges|] == ranges;
    forall x ensures Contains(rs, x) <==> InAny(ranges, x) {
      RangeSetOfContains(ranges, x);
    }
  }

  // ----------------------------------------------- canonical sets are unique

  lemma {:induction false} ContainsAtLeastFirst(rs: seq<Range>, x: int)
    requires Canonical(rs) && Contains(rs, x)
    ensures x >= rs[0].lo
  {
    if !InRange(rs[0], x) {
      ContainsAfterFirst(rs, x);
    }
  }

  /** What the tail of a canonical list contains lies beyond the first
      interval and the gap after it. */
  lemma {:induction false} ContainsAfterFirst(rs: seq<Range>, x: int)
    requires Canonical(rs) && rs != [] && Contains(rs[1..], x)
    ensures x > rs[0].hi + 1
  {
    var tail := rs[1..];
    if !InRange(tail[0], x) {
      ContainsAfterFirst(tail, x);
    }
  }

  /** A canonical list never contains the id right after its first interval. */
  lemma NoIdAfterFirst(rs: seq<Range>)
    requires Canonical(rs) && rs != []
    ensures !Contains(rs, rs[0].hi + 1)
  {
    if Contains(rs[1..], rs[0].hi + 1) {
      ContainsAfterFirst(rs, rs[0].hi + 1);
    }
  }

  lemma ContainsOwnFirst(rs: seq<Range>)
    requires Canonical(rs) && rs != []
    ensures Contains(rs, rs[0].lo)
  {
  }

  /** Two canonical lists that contain the same ids are the same list. */
  lemma {:induction false} CanonicalUnique(a: seq<Range>, b: seq<Range>)
    requires Canonical(a) && Canonical(b)
    requires forall x :: Contains(a, x) <==> Contains(b, x)
    ensures a == b
    decreases |a|, 1
  {
    if a != [] {
      assert Contains(a, a[0].lo);
      CanonicalUnique'(a, b);
    } else if b != [] {
      ContainsOwnFirst(b);
      assert false;
    }
  }

  /** The step of `CanonicalUnique` for two non-empty lists. */
  lemma {:induction false} CanonicalUnique'(a: seq<Range>, b: seq<Range>)
    requires Canonical(a) && Canonical(b) && a != [] && b != []
    requires forall x :: Contains(a, x) <==> Contains(b, x)
    ensures a == b
    decreases |a|, 0
  {
    assert Contains(a, a[0].lo) && Contains(b, b[0].lo);
    ContainsAtLeastFirst(b, a[0].lo);
    ContainsAtLeastFirst(a, b[0].lo);
    assert a[0].lo == b[0].lo;
    NoIdAfterFirst(a);
    NoIdAfterFirst(b);
    assert !Contains(a, b[0].hi + 1) && !Contains(b, a[0].hi + 1);
    assert a[0].hi == b[0].hi;
    assert a[0] == b[0];
    forall x ensures Contains(a[1..], x) <==> Contains(b[1..], x) {
      if Contains(a[1..], x) {
        ContainsAfterFirst(a, x);
        assert Contains(a, x) && !InRange(b[0], x);
      }
      if Contains(b[1..], x) {
        ContainsAfterFirst(b, x);
        assert Contains(b, x) && !InRange(a[0], x);
      }
    }
    CanonicalUnique(a[1..], b[1..]);
    assert a == [a[0]] + a[1..] && b == [b[0]] + b[1..];
  }

  /** The set does not depend on the order in which the ranges are inserted. */
  lemma RangeSetOrderIndependent(ranges: seq<Range>, other: seq<Range>)
    requires WellFormed(ranges) && multiset(ranges) == multiset(other)
    ensures WellFormed(other)
    ensures RangeSetOf(ranges) == RangeSetOf(other)
  {
    forall i | 0 <= i < |other| ensures other[i].lo <= other[i].hi {
      assert other[i] in multiset(ranges);
    }
    forall x ensures Contains(RangeSetOf(ranges), x) <==> Contains(RangeSetOf(other), x) {
      RangeSetOfContains(ranges, x);
      RangeSetOfContains(other, x);
      if InAny(ranges, x) {
        var i :| 0 <= i < |ranges| && InRange(ranges[i], x);
        assert ranges[i] in multiset(other);
      }
      if InAny(other, x) {
        var i :| 0 <= i < |other| && InRange(other[i], x);
        assert other[i] in multiset(ranges);
      }
    }
    CanonicalUnique(RangeSetOf(ranges), RangeSetOf(other));
  }

  /** Inserting a range a second time changes nothing. */
  lemma InsertIdempotent(rs: seq<Range>, r: Range)
    requires Canonical(rs) && r.lo <= r.hi
    ensures Insert(Insert(rs, r), r) == Insert(rs, r)
  {
    CanonicalUnique(Insert(Insert(rs, r), r), Insert(rs, r));
  }

  // ------------------------------------------------------------- counting

  /** The ids `lo..=hi`. */
  function Interval(lo: int, hi: int): (s: set<int>)
    ensures forall x :: x in s <==> lo <= x <= hi
    ensures lo <= hi + 1 ==> |s| == hi - lo + 1
    decreases hi - lo + 1
  {
    if hi < lo then {} else Interval(lo, hi - 1) + {hi}
  }

  /** The ids of a range. */
  function Ids(r: Range): (s: set<int>)
    ensures forall x :: x in s <==> InRange(r, x)
    ensures |s| == r.hi - r.lo + 1 || r.hi < r.lo
  {
    Interval(r.lo, r.hi)
  }

  /** The ids the input ranges cover, each once. */
  ghost function FreshIds(ranges: seq<Range>): (s: set<int>)
    ensures forall x :: x in s <==> InAny(ranges, x)
  {
    if ranges == [] then {}
    else
      InAnySnoc(ranges);
      FreshIds(ranges[..|ranges| - 1]) + Ids(ranges[|ranges| - 1])
  }

  /** An id lies in some range of a list exactly when it lies in one of the
      earlier ranges or in the last. */
  lemma InAnySnoc(ranges: seq<Range>)
    requires ranges != []
    ensures forall x :: (InAny(ranges, x)
      <==> InAny(ranges[..|ranges| - 1], x) || InRange(ranges[|ranges| - 1], x))
  {
    var init := ranges[..|ranges| - 1];
    forall x | InAny(init, x) ensures InAny(ranges, x) {
      var i :| 0 <= i < |init| && InRange(init[i], x);
      assert ranges[i] == init[i];
    }
    forall x | InAny(ranges, x) && !InRange(ranges[|ranges| - 1], x) ensures InAny(init, x) {
      var i :| 0 <= i < |ranges| && InRange(ranges[i], x);
      assert init[i] == ranges[i];
    }
  }

  /** The ids a list of intervals contains. */
  ghost function ContainedIds(rs: seq<Range>): (s: set<int>)
    ensures forall x :: x in s <==> Contains(rs, x)
  {
    if rs == [] then {} else Ids(rs[0]) + ContainedIds(rs[1..])
  }

  /** The summed lengths `hi - lo + 1` of the intervals. */
  function Size(rs: seq<Range>): nat
    requires Canonical(rs)
  {
    if rs == [] then 0 else rs[0].hi - rs[0].lo + 1 + Size(rs[1..])
  }

  /** In a canonical list every id is counted once, so the lengths add up to
      the number of ids. */
  lemma {:induction false} SizeCountsIds(rs: seq<Range>)
    requires Canonical(rs)
    ensures Size(rs) == |ContainedIds(rs)|
  {
    if rs != [] {
      SizeCountsIds(rs[1..]);
      var head, tail := Ids(rs[0]), ContainedIds(rs[1..]);
      forall x | x in tail ensures x !in head {
        ContainsAfterFirst(rs, x);
      }
      assert head * tail == {};
      assert |head + tail| == |head| + |tail|;
    }
  }

  // ------------------------------------------------------------------ parts

  /** Number of entries of `ids` the set contains, counted with multiplicity. */
  function CountContained(rs: seq<Range>, ids: seq<nat>): (n: nat)
    ensures n <= |ids|
  {
    if ids == [] then 0
    else CountContained(rs, ids[..|ids| - 1]) + (if Contains(rs, ids[|ids| - 1]) then 1 else 0)
  }

  /** Number of entries of `ids` inside some input range. */
  function CountFresh(ranges: seq<Range>, ids: seq<nat>): nat
  {
    if ids == [] then 0
    else CountFresh(ranges, ids[..|ids| - 1]) + (if InAny(ranges, ids[|ids| - 1]) then 1 else 0)
  }

  lemma {:induction false} CountContainedIsCountFresh(rs: seq<Range>, ranges: seq<Range>, ids: seq<nat>)
    requires forall x :: Contains(rs, x) <==> InAny(ranges, x)
    ensures CountContained(rs, ids) == CountFresh(ranges, ids)
  {
    if ids != [] {
      CountContainedIsCountFresh(rs, ranges, ids[..|ids| - 1]);
    }
  }

  /** `solve_part_1`: the available ids that lie in some fresh range,
      counted with multiplicity. */
  method SolvePart1(ranges: seq<Range>, ids: seq<nat>) returns (count: nat)
    requires WellFormed(ranges)
    ensures count == CountFresh(ranges, ids)
    ensures count <= |ids|
  {
    var rs := BuildRangeSet(ranges);
    count := CountContained(rs, ids);
    CountContainedIsCountFresh(rs, ranges, ids);
  }

  /** `solve_part_2`: the number of distinct ids the fresh ranges cover,
      overlapping and adjacent ranges counted once. */
  method SolvePart2(ranges: seq<Range>) returns (total: nat)
    requires WellFormed(ranges)
    ensures total == |FreshIds(ranges)|
  {
    var rs := BuildRangeSet(ranges);
    total := Size(rs);
    SizeCountsIds(rs);
    assert ContainedIds(rs) == FreshIds(ranges);
  }

  // ---------------------------------------------------------------- parsing

  /** Position of the first blank line separator `"\n\n"`, or `|s|`. */
  function IndexOfBlank(s: string): (i: nat)
    ensures i <= |s|
    ensures i < |s| ==> i + 1 < |s| && s[i] == '\n' && s[i + 1] == '\n'
    ensures forall j :: 0 <= j < i && j + 1 < |s| ==> !(s[j] == '\n' && s[j + 1] == '\n')
  {
    if |s| < 2 then |s|
    else if s[0] == '\n' && s[1] == '\n' then 0
    else
      var j := IndexOfBlank(s[1..]);
      if j == |s| - 1 then |s| else 1 + j
  }

  /** One `a-b` line. */
  function ParseRange(line: string): Option<Range>
  {
    match SplitOnce(line, '-')
    case None => None
    case Some((a, b)) =>
      match (ParseUnsigned(a), ParseUnsigned(b))
      case (Some(lo), Some(hi)) => Some(Range(lo, hi))
      case _ => None
  }

  function ParseRanges(lines: seq<string>): (r: Option<seq<Range>>)
    ensures r.Some? ==> |r.value| == |lines|
  {
    if lines == [] then Some([])
    else match (ParseRange(lines[0]), ParseRanges(lines[1..]))
      case (Some(x), Some(xs)) => Some([x] + xs)
      case _ => None
  }

  function ParseIds(lines: seq<string>): (r: Option<seq<nat>>)
    ensures r.Some? ==> |r.value| == |lines|
  {
    if lines == [] then Some([])
    else match (ParseUnsigned(lines[0]), ParseIds(lines[1..]))
      case (Some(x), Some(xs)) => Some([x] + xs)
      case _ => None
  }

  /** `Day::create`: the ranges before the first blank line, the ids after
      it. `None` where the source panics (no blank line, a bad number). */
  function Create(input: string): Option<(seq<Range>, seq<nat>)>
  {
    var i := IndexOfBlank(input);
    if i == |input| then None
    else match (ParseRanges(Lines(input[..i])), ParseIds(Lines(input[i + 2..])))
      case (Some(ranges), Some(ids)) => Some((ranges, ids))
      case _ => None
  }

  function ShowRange(r: Range): string { Show(r.lo) + "-" + Show(r.hi) }

  lemma ParseShowRange(r: Range)
    ensures ParseRange(ShowRange(r)) == Some(r)
  {
    var a, b := Show(r.lo), Show(r.hi);
    assert '-' !in a by { assert forall j :: 0 <= j < |a| ==> IsDigit(a[j]); }
    var s := ShowRange(r);
    assert s == a + ['-'] + b;
    SplitOnceJoin(a, '-', b);
    ParseShow(r.lo);
    ParseShow(r.hi);
  }

  /** The text of an input: the range lines, a blank line, the id lines. */
  function ShowInput(ranges: seq<Range>, ids: seq<nat>): string
  {
    JoinLines(RangeLines(ranges)) + "\n" + JoinLines(IdLines(ids))
  }

  function RangeLines(ranges: seq<Range>): seq<string>
  {
    seq(|ranges|, k requires 0 <= k < |ranges| => ShowRange(ranges[k]))
  }

  function IdLines(ids: seq<nat>): seq<string>
  {
    seq(|ids|, k requires 0 <= k < |ids| => Show(ids[k]))
  }

  /** A number as written ends in a digit, so it is a plain line. */
  lemma ShowIsPlain(n: nat)
    ensures Show(n) != [] && '\n' !in Show(n) && StripCr(Show(n)) == Show(n)
  {
    var s := Show(n);
    assert forall j :: 0 <= j < |s| ==> IsDigit(s[j]);
  }

  lemma ShowRangeIsPlain(r: Range)
    ensures ShowRange(r) != [] && '\n' !in ShowRange(r) && StripCr(ShowRange(r)) == ShowRange(r)
  {
    ShowIsPlain(r.lo);
    ShowIsPlain(r.hi);
    var s := ShowRange(r);
    assert s[|s| - 1] == Show(r.hi)[|Show(r.hi)| - 1];
  }

  /** Parsing a written input gives back its ranges and ids; there must be at
      least one range, or the text would not start with a range line. */
  lemma CreateShowInput(ranges: seq<Range>, ids: seq<nat>)
    requires ranges != []
    ensures Create(ShowInput(ranges, ids)) == Some((ranges, ids))
  {
    var a, b := RangeLines(ranges), IdLines(ids);
    forall k | 0 <= k < |a| ensures a[k] != [] && '\n' !in a[k] && StripCr(a[k]) == a[k] {
      ShowRangeIsPlain(ranges[k]);
    }
    forall k | 0 <= k < |b| ensures b[k] != [] && '\n' !in b[k] && StripCr(b[k]) == b[k] {
      ShowIsPlain(ids[k]);
    }
    SplitAtBlank(a, b);
    ParseRangesShow(ranges, a);
    ParseIdsShow(ids, b);
    var text := ShowInput(ranges, ids);
    var i := IndexOfBlank(text);
    assert ParseRanges(Lines(text[..i])) == Some(ranges);
    assert ParseIds(Lines(text[i + 2..])) == Some(ids);
  }

  /** Two blocks of plain lines joined by a blank line split back apart at
      the first blank line. */
  lemma SplitAtBlank(a: seq<string>, b: seq<string>)
    requires a != [] && PlainLines(a) && PlainLines(b)
    ensures var text := JoinLines(a) + "\n" + JoinLines(b);
      var i := IndexOfBlank(text);
      i < |text| && Lines(text[..i]) == a && Lines(text[i + 2..]) == b
  {
    var ja, jb := JoinLines(a), JoinLines(b);
    JoinLinesNoBlank(a);
    LinesJoinLinesDropLast(a);
    LinesJoinLines(b);
    LastOfJoinLines(a);
    BlankAfterFirstPart(ja, jb);
  }

  /** The first blank line of `ja + "\n" + jb` is the one the added line feed
      makes, when `ja` ends in a line feed and has no blank line itself. */
  lemma BlankAfterFirstPart(ja: string, jb: string)
    requires |ja| > 0 && ja[|ja| - 1] == '\n'
    requires forall j :: 0 <= j && j + 1 < |ja| ==> !(ja[j] == '\n' && ja[j + 1] == '\n')
    ensures IndexOfBlank(ja + "\n" + jb) == |ja| - 1
    ensures (ja + "\n" + jb)[..|ja| - 1] == ja[..|ja| - 1]
    ensures (ja + "\n" + jb)[|ja| + 1..] == jb
  {
    var text := ja + "\n" + jb;
    var p := |ja| - 1;
    assert text[p] == '\n' && text[p + 1] == '\n';
    forall j | 0 <= j < p ensures !(text[j] == '\n' && text[j + 1] == '\n') {
      assert text[j] == ja[j] && text[j + 1] == ja[j + 1];
    }
  }

  lemma {:induction false} LastOfJoinLines(ls: seq<string>)
    requires ls != []
    ensures |JoinLines(ls)| > 0 && JoinLines(ls)[|JoinLines(ls)| - 1] == '\n'
  {
    if |ls| > 1 { LastOfJoinLines(ls[1..]); }
  }

  lemma {:induction false} ParseRangesShow(ranges: seq<Range>, ls: seq<string>)
    requires |ls| == |ranges| && forall k :: 0 <= k < |ls| ==> ls[k] == ShowRange(ranges[k])
    ensures ParseRanges(ls) == Some(ranges)
  {
    if ranges != [] {
      ParseShowRange(ranges[0]);
      ParseRangesShow(ranges[1..], ls[1..]);
      assert [ranges[0]] + ranges[1..] == ranges;
    }
  }

  lemma {:induction false} ParseIdsShow(ids: seq<nat>, ls: seq<string>)
    requires |ls| == |ids| && forall k :: 0 <= k < |ls| ==> ls[k] == Show(ids[k])
    ensures ParseIds(ls) == Some(ids)
  {
    if ids != [] {
      ParseShow(ids[0]);
      ParseIdsShow(ids[1..], ls[1..]);
      assert [ids[0]] + ids[1..] == ids;
    }
  }
}
