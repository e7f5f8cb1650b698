// Device paths: a directed acyclic graph of labelled devices. Part 1 counts
// the paths from "you" to "out"; part 2 counts the paths from "svr" to "out"
// that visit both "dac" and "fft", from six path counts.
module Day11 {
  import opened Text
  import opened Sets

  /** Each device and the set of devices its outputs lead to. */
  type Graph = map<string, set<string>>

  // ---------------------------------------------------------------- parsing

  /** One line `from: to1 to2 ...`, trimmed and split at the first ": ";
      the successors are the whitespace-separated tokens after it, and a
      repeated token counts once. `None` where the source panics. */
  function ParseLine(line: string): Option<(string, set<string>)>
  {
    match SplitOnceStr(Trim(line), ": ")
    case None => None
    case Some((from, rest)) => Some((from, set t | t in SplitWhitespace(rest)))
  }

  /** A line parses exactly when its trimmed text holds ": "; the label is
      what comes before the first one and the successors are the tokens after it. */
  lemma ParseLineParts(line: string)
    ensures ParseLine(line).None? <==> forall j :: 0 <= j <= |Trim(line)| ==> !MatchAt(Trim(line), ": ", j)
    ensures ParseLine(line).Some? ==> exists rest ::
      && Trim(line) == ParseLine(line).value.0 + ": " + rest
      && forall t :: t in ParseLine(line).value.1 <==> t in SplitWhitespace(rest)
    ensures ParseLine(line).Some? ==>
      forall j :: 0 <= j < |ParseLine(line).value.0| ==> !MatchAt(Trim(line), ": ", j)
  {
  }

  /** `collect` into a map: every `from` becomes a key, and a later line for
      the same `from` replaces an earlier one. */
  function Collect(pairs: seq<(string, set<string>)>): Graph
  {
    if pairs == [] then map[]
    else
      var init, last := pairs[..|pairs| - 1], pairs[|pairs| - 1];
      Collect(init)[last.0 := last.1]
  }

  /** The keys are the `from` devices, and each maps to its last line's targets. */
  lemma {:induction false} CollectFacts(pairs: seq<(string, set<string>)>)
    ensures forall k :: k in Collect(pairs) <==> exists i :: 0 <= i < |pairs| && pairs[i].0 == k
    ensures forall i :: 0 <= i < |pairs| && (forall j :: i < j < |pairs| ==> pairs[j].0 != pairs[i].0) ==>
      pairs[i].0 in Collect(pairs) && Collect(pairs)[pairs[i].0] == pairs[i].1
  {
    if pairs != [] {
      var init, last := pairs[..|pairs| - 1], pairs[|pairs| - 1];
      CollectFacts(init);
      assert forall i :: 0 <= i < |init| ==> init[i] == pairs[i];
      var g := Collect(pairs);
      assert g == Collect(init)[last.0 := last.1];
      forall k | k in g
        ensures exists i :: 0 <= i < |pairs| && pairs[i].0 == k
      {
        if k != last.0 {
          var i :| 0 <= i < |init| && init[i].0 == k;
          assert pairs[i].0 == k;
        } else {
          assert pairs[|pairs| - 1].0 == k;
        }
      }
      forall i | 0 <= i < |pairs| && (forall j :: i < j < |pairs| ==> pairs[j].0 != pairs[i].0)
        ensures pairs[i].0 in g && g[pairs[i].0] == pairs[i].1
      {
        if i < |init| {
          assert pairs[|pairs| - 1].0 != pairs[i].0;
          assert forall j :: i < j < |init| ==> init[j].0 != init[i].0;
        }
      }
    }
  }

  /** `Day::create`: the trimmed input, one line per device. */
  function Create(input: string): Option<Graph>
  {
    match AllSome(Lines(Trim(input)), ParseLine)
    case None => None
    case Some(pairs) => Some(Collect(pairs))
  }

  /** Parsing fails exactly when some line has no ": ". */
  lemma CreateFails(input: string)
    ensures Create(input).None? <==> exists k :: 0 <= k < |Lines(Trim(input))| && ParseLine(Lines(Trim(input))[k]).None?
  {
    var ls := Lines(Trim(input));
    AllSomeEach(ls, ParseLine);
    if exists k :: 0 <= k < |ls| && ParseLine(ls[k]).None? {
      var k :| 0 <= k < |ls| && ParseLine(ls[k]).None?;
      AllSomeNoneAt(ls, ParseLine, k);
    }
    if Create(input).None? {
      assert AllSome(ls, ParseLine).None?;
      var k :| 0 <= k < |ls| && ParseLine(ls[k]).None?;
      assert 0 <= k < |Lines(Trim(input))| && ParseLine(Lines(Trim(input))[k]).None?;
      assert Create(input).None?;
      assert exists k :: 0 <= k < |Lines(Trim(input))| && ParseLine(Lines(Trim(input))[k]).None?;
    } else {
      assert AllSome(ls, ParseLine).Some?;
      assert !exists k :: 0 <= k < |ls| && ParseLine(ls[k]).None?;
    }
  }

  /** Otherwise the graph is collected from the lines' pairs, in order. */
  lemma CreateCollects(input: string)
    requires Create(input).Some?
    ensures var ls := Lines(Trim(input));
      exists pairs ::
        && |pairs| == |ls|
        && (forall k :: 0 <= k < |ls| ==> ParseLine(ls[k]) == Some(pairs[k]))
        && Create(input).value == Collect(pairs)
  {
    var ls := Lines(Trim(input));
    AllSomeEach(ls, ParseLine);
    var pairs := AllSome(ls, ParseLine).value;
    assert forall k :: 0 <= k < |ls| ==> ParseLine(ls[k]) == Some(pairs[k]);
  }

  // ------------------------------------------------------------ the graph

  /** A topological ranking: every edge leads to a device of smaller rank.
      A graph has one exactly when it is acyclic. */
  ghost predicate Ranked(g: Graph, rank: map<string, nat>)
  {
    forall u :: u in g ==> u in rank && forall v :: v in g[u] ==> v in rank && rank[v] < rank[u]
  }

  ghost function Height(rank: map<string, nat>, s: string): nat
  {
    if s in rank then rank[s] + 1 else 0
  }

  /** What the source's recursion computes: 1 at the end device, 0 at a
      device with no line, and otherwise the sum over the successors. */
  ghost function Count(g: Graph, rank: map<string, nat>, s: string, e: string): nat
    requires Ranked(g, rank)
    decreases Height(rank, s), 1
  {
    if s == e then 1 else if s !in g then 0 else SuccSum(g, rank, s, g[s], e)
  }

  /** The sum of `Count(v, e)` over the successors `v` in `S`. */
  ghost function SuccSum(g: Graph, rank: map<string, nat>, s: string, S: set<string>, e: string): nat
    requires Ranked(g, rank) && s in g && S <= g[s]
    decreases Height(rank, s), 0, |S|
  {
    if S == {} then 0
    else
      var v := Pick(S);
      Count(g, rank, v, e) + SuccSum(g, rank, s, S - {v}, e)
  }

  /** The sum does not depend on which successor is taken first. */
  lemma {:induction false} SuccSumRemove(g: Graph, rank: map<string, nat>, s: string, S: set<string>, e: string, v: string)
    requires Ranked(g, rank) && s in g && S <= g[s] && v in S
    ensures SuccSum(g, rank, s, S, e) == Count(g, rank, v, e) + SuccSum(g, rank, s, S - {v}, e)
    decreases |S|
  {
    var w := Pick(S);
    if w != v {
      SuccSumRemove(g, rank, s, S - {w}, e, v);
      SuccSumRemove(g, rank, s, S - {v}, e, w);
      assert S - {w} - {v} == S - {v} - {w};
    }
  }

  lemma SuccSumAdd(g: Graph, rank: map<string, nat>, s: string, D: set<string>, e: string, v: string)
    requires Ranked(g, rank) && s in g && D <= g[s] && v in g[s] && v !in D
    ensures SuccSum(g, rank, s, D + {v}, e) == SuccSum(g, rank, s, D, e) + Count(g, rank, v, e)
  {
    SuccSumRemove(g, rank, s, D + {v}, e, v);
    assert D + {v} - {v} == D;
  }

  /** Taking `v` out of the successors still to visit adds it to the visited ones. */
  lemma TakeOne(all: set<string>, rest: set<string>, v: string)
    requires rest <= all && v in rest
    ensures rest - {v} <= all && all - (rest - {v}) == (all - rest) + {v} && v !in all - rest
  {
  }

  /** The directed paths from `s` that end at their first arrival at `e`. */
  ghost function Paths(g: Graph, rank: map<string, nat>, s: string, e: string): set<seq<string>>
    requires Ranked(g, rank)
    decreases Height(rank, s)
  {
    if s == e then {[e]}
    else if s !in g then {}
    else set v, q | v in g[s] && q in Paths(g, rank, v, e) :: [s] + q
  }

  /** `p` follows edges of `g` from `s` to `e` and meets `e` only at its end. */
  ghost predicate IsPath(g: Graph, p: seq<string>, s: string, e: string)
  {
    && |p| >= 1 && p[0] == s && p[|p| - 1] == e && e !in p[..|p| - 1]
    && forall i :: 0 <= i < |p| - 1 ==> p[i] in g && p[i + 1] in g[p[i]]
  }

  /** `Paths` holds exactly the paths from `s` to the first arrival at `e`. */
  lemma {:induction false} PathsAreFirstArrivals(g: Graph, rank: map<string, nat>, s: string, e: string, p: seq<string>)
    requires Ranked(g, rank)
    ensures p in Paths(g, rank, s, e) <==> IsPath(g, p, s, e)
    decreases Height(rank, s)
  {
    if s != e && s in g {
      if p in Paths(g, rank, s, e) {
        var v, q :| v in g[s] && q in Paths(g, rank, v, e) && p == [s] + q;
        PathsAreFirstArrivals(g, rank, v, e, q);
        ConsPath(g, s, v, e, q);
      }
      if IsPath(g, p, s, e) {
        TailPath(g, p, s, e);
        PathsAreFirstArrivals(g, rank, p[1], e, p[1..]);
        assert p == [s] + p[1..];
      }
    } else if s == e {
      if IsPath(g, p, s, e) {
        assert |p| == 1;
        assert p == [e];
      }
      if p == [e] {
        assert p[..0] == [];
      }
    }
  }

  /** A step from `s` to `v` followed by a path from `v` is a path from `s`. */
  lemma ConsPath(g: Graph, s: string, v: string, e: string, q: seq<string>)
    requires s != e && s in g && v in g[s] && IsPath(g, q, v, e)
    ensures IsPath(g, [s] + q, s, e)
  {
    var p := [s] + q;
    assert p[..|p| - 1] == [s] + q[..|q| - 1];
    forall i | 0 <= i < |p| - 1
      ensures p[i] in g && p[i + 1] in g[p[i]]
    {
      if i > 0 {
        assert p[i] == q[i - 1] && p[i + 1] == q[i];
      }
    }
  }

  /** A path from `s` that does not start at `e` goes on with a path from
      its second device. */
  lemma TailPath(g: Graph, p: seq<string>, s: string, e: string)
    requires s != e && IsPath(g, p, s, e)
    ensures |p| >= 2 && p[1] in g[s] && IsPath(g, p[1..], p[1], e)
  {
    assert |p| >= 2;
    var q := p[1..];
    assert q[..|q| - 1] == p[..|p| - 1][1..];
    forall i | 0 <= i < |q| - 1
      ensures q[i] in g && q[i + 1] in g[q[i]]
    {
      assert q[i] == p[i + 1] && q[i + 1] == p[i + 2];
    }
  }

  /** Along a path every device has a smaller rank than the ones before it,
      so no device appears twice. */
  lemma {:induction false} PathRanks(g: Graph, rank: map<string, nat>, s: string, e: string, p: seq<string>)
    requires Ranked(g, rank) && p in Paths(g, rank, s, e)
    ensures |p| >= 1 && p[0] == s
    ensures forall i, j :: 0 <= i < j < |p| ==> p[i] in rank && p[j] in rank && rank[p[j]] < rank[p[i]]
    decreases Height(rank, s)
  {
    if s != e && s in g {
      var v, q :| v in g[s] && q in Paths(g, rank, v, e) && p == [s] + q;
      PathRanks(g, rank, v, e, q);
      forall i, j | 0 <= i < j < |p| ensures p[i] in rank && p[j] in rank && rank[p[j]] < rank[p[i]] {
        if i == 0 && j > 1 {
          assert p[j] == q[j - 1] && q[0] == v;
        }
      }
    }
  }

  /** A positive count between different devices goes down in rank. */
  lemma {:induction false} CountPositive(g: Graph, rank: map<string, nat>, s: string, e: string)
    requires Ranked(g, rank) && s != e && Count(g, rank, s, e) > 0
    ensures s in rank && e in rank && rank[e] < rank[s]
    decreases Height(rank, s)
  {
    var v := SuccSumPositive(g, rank, s, g[s], e);
    if v != e {
      CountPositive(g, rank, v, e);
    }
  }

  lemma {:induction false} SuccSumPositive(g: Graph, rank: map<string, nat>, s: string, S: set<string>, e: string) returns (v: string)
    requires Ranked(g, rank) && s in g && S <= g[s] && SuccSum(g, rank, s, S, e) > 0
    ensures v in S && Count(g, rank, v, e) > 0
    decreases |S|
  {
    var w := Pick(S);
    if Count(g, rank, w, e) > 0 {
      v := w;
    } else {
      v := SuccSumPositive(g, rank, s, S - {w}, e);
    }
  }

  /** No two different devices reach each other. */
  lemma NoCycle(g: Graph, rank: map<string, nat>, a: string, b: string)
    requires Ranked(g, rank) && a != b
    ensures Count(g, rank, a, b) == 0 || Count(g, rank, b, a) == 0
  {
    if Count(g, rank, a, b) > 0 && Count(g, rank, b, a) > 0 {
      CountPositive(g, rank, a, b);
      CountPositive(g, rank, b, a);
    }
  }

  // ------------------------------------------------- counting the paths

  /** Which paths are counted: all of them, those through `b`, or those
      through `a` and later through `b`. */
  datatype Filter = All | Through(b: string) | InOrder(a: string, b: string)

  predicate Keep(f: Filter, p: seq<string>)
  {
    match f
    case All => true
    case Through(b) => b in p
    case InOrder(a, b) => exists i, j :: 0 <= i < j < |p| && p[i] == a && p[j] == b
  }

  /** The devices a filter names are all different from the end device. */
  predicate Fits(f: Filter, e: string)
  {
    match f
    case All => true
    case Through(b) => b != e
    case InOrder(a, b) => a != b && a != e && b != e
  }

  function Level(f: Filter): nat
  {
    match f
    case All => 0
    case Through(_) => 1
    case InOrder(_, _) => 2
  }

  ghost function Selected(g: Graph, rank: map<string, nat>, f: Filter, s: string, e: string): set<seq<string>>
    requires Ranked(g, rank)
  {
    set p | p in Paths(g, rank, s, e) && Keep(f, p)
  }

  /** The first device the filter asks for (the end for `All`). */
  function Via(f: Filter, e: string): string
  {
    match f
    case All => e
    case Through(b) => b
    case InOrder(a, _) => a
  }

  /** The number of ways on from `Via(f, e)` to `e`. */
  ghost function Onward(g: Graph, rank: map<string, nat>, f: Filter, e: string): nat
    requires Ranked(g, rank)
  {
    match f
    case All => 1
    case Through(b) => Count(g, rank, b, e)
    case InOrder(a, b) => Count(g, rank, a, b) * Count(g, rank, b, e)
  }

  /** The paths from `s` through `[s] + q`-extensions of the successors in `S`. */
  ghost function Extended(g: Graph, rank: map<string, nat>, f: Filter, s: string, S: set<string>, e: string): set<seq<string>>
    requires Ranked(g, rank)
  {
    set v, q | v in S && q in Selected(g, rank, f, v, e) :: [s] + q
  }

  /** Prepending a device keeps the number of paths. */
  lemma {:induction false} PrependSize(s: string, A: set<seq<string>>)
    ensures |set q | q in A :: [s] + q| == |A|
    decreases |A|
  {
    if A != {} {
      var q := Pick(A);
      PrependSize(s, A - {q});
      assert (set r | r in A :: [s] + r) == (set r | r in A - {q} :: [s] + r) + {[s] + q};
      forall r | r in A - {q} ensures [s] + r != [s] + q {
        assert ([s] + r)[1..] == r && ([s] + q)[1..] == q;
      }
    }
  }

  /** The paths through one successor `v` and those through the others. */
  lemma ExtendedSplit(g: Graph, rank: map<string, nat>, f: Filter, s: string, S: set<string>, e: string, v: string)
    requires Ranked(g, rank) && v in S
    ensures Extended(g, rank, f, s, S, e) == Extended(g, rank, f, s, S - {v}, e) + Extended(g, rank, f, s, {v}, e)
  {
  }

  /** A path through the successors in `S` takes one of them second. */
  lemma ExtendedSecond(g: Graph, rank: map<string, nat>, f: Filter, s: string, S: set<string>, e: string)
    requires Ranked(g, rank)
    ensures forall p :: p in Extended(g, rank, f, s, S, e) ==> |p| >= 2 && p[1] in S
  {
    forall p | p in Extended(g, rank, f, s, S, e) ensures |p| >= 2 && p[1] in S {
      var w, q :| w in S && q in Selected(g, rank, f, w, e) && p == [s] + q;
      PathRanks(g, rank, w, e, q);
    }
  }

  /** The paths through one successor are as many as its own paths. */
  lemma ExtendedOne(g: Graph, rank: map<string, nat>, f: Filter, s: string, e: string, v: string)
    requires Ranked(g, rank)
    ensures |Extended(g, rank, f, s, {v}, e)| == |Selected(g, rank, f, v, e)|
  {
    PrependSize(s, Selected(g, rank, f, v, e));
    assert Extended(g, rank, f, s, {v}, e) == set q | q in Selected(g, rank, f, v, e) :: [s] + q;
  }

  /** Paths through different successors are different. */
  lemma ExtendedDisjoint(g: Graph, rank: map<string, nat>, f: Filter, s: string, S: set<string>, e: string, v: string)
    requires Ranked(g, rank)
    ensures Extended(g, rank, f, s, S - {v}, e) !! Extended(g, rank, f, s, {v}, e)
  {
    ExtendedSecond(g, rank, f, s, S - {v}, e);
    ExtendedSecond(g, rank, f, s, {v}, e);
  }

  /** Paths through different successors are different, so their numbers add up. */
  lemma {:induction false} ExtendedSize(g: Graph, rank: map<string, nat>, f: Filter, s: string, S: set<string>, e: string)
    requires Ranked(g, rank) && s in g && S <= g[s]
    requires forall v :: v in S ==> |Selected(g, rank, f, v, e)| == Count(g, rank, v, Via(f, e)) * Onward(g, rank, f, e)
    ensures |Extended(g, rank, f, s, S, e)| == SuccSum(g, rank, s, S, Via(f, e)) * Onward(g, rank, f, e)
    decreases |S|
  {
    if S == {} {
      assert Extended(g, rank, f, s, S, e) == {};
      assert SuccSum(g, rank, s, S, Via(f, e)) == 0;
    } else {
      var v := Pick(S);
      ExtendedSize(g, rank, f, s, S - {v}, e);
      ExtendedStep(g, rank, f, s, S, e, v);
    }
  }

  /** One successor more adds its own paths. */
  lemma ExtendedStep(g: Graph, rank: map<string, nat>, f: Filter, s: string, S: set<string>, e: string, v: string)
    requires Ranked(g, rank) && s in g && S <= g[s] && S != {} && v == Pick(S)
    requires |Selected(g, rank, f, v, e)| == Count(g, rank, v, Via(f, e)) * Onward(g, rank, f, e)
    requires |Extended(g, rank, f, s, S - {v}, e)| == SuccSum(g, rank, s, S - {v}, Via(f, e)) * Onward(g, rank, f, e)
    ensures |Extended(g, rank, f, s, S, e)| == SuccSum(g, rank, s, S, Via(f, e)) * Onward(g, rank, f, e)
  {
    var rest, here := Extended(g, rank, f, s, S - {v}, e), Extended(g, rank, f, s, {v}, e);
    var k, a, b := Onward(g, rank, f, e), Count(g, rank, v, Via(f, e)), SuccSum(g, rank, s, S - {v}, Via(f, e));
    ExtendedOne(g, rank, f, s, e, v);
    ExtendedSplit(g, rank, f, s, S, e, v);
    ExtendedDisjoint(g, rank, f, s, S, e, v);
    DisjointUnionSize(rest, here);
    assert SuccSum(g, rank, s, S, Via(f, e)) == a + b;
    AddMul(a, b, k, SuccSum(g, rank, s, S, Via(f, e)));
  }

  lemma AddMul(a: nat, b: nat, k: nat, sum: nat)
    requires sum == a + b
    ensures sum * k == a * k + b * k
  {
  }

  /** Where `s` is none of the devices the filter names, a path from `s` is
      kept exactly when the rest of it is. */
  lemma KeepPrepend(f: Filter, s: string, q: seq<string>)
    requires match f
      case All => true
      case Through(b) => s != b
      case InOrder(a, b) => s != a && s != b
    ensures Keep(f, [s] + q) == Keep(f, q)
  {
    var p := [s] + q;
    if f.InOrder? {
      if Keep(f, p) {
        var i, j :| 0 <= i < j < |p| && p[i] == f.a && p[j] == f.b;
        assert q[i - 1] == p[i] && q[j - 1] == p[j];
      }
      if Keep(f, q) {
        var i, j :| 0 <= i < j < |q| && q[i] == f.a && q[j] == f.b;
        assert p[i + 1] == q[i] && p[j + 1] == q[j];
      }
    }
  }

  /** The number of kept paths from `s` to `e` is the number of ways from
      `s` to `Via(f, e)` times the number of ways on from there. */
  lemma {:induction false} SelectedSize(g: Graph, rank: map<string, nat>, f: Filter, s: string, e: string)
    requires Ranked(g, rank) && Fits(f, e)
    ensures |Selected(g, rank, f, s, e)| == Count(g, rank, s, Via(f, e)) * Onward(g, rank, f, e)
    decreases Height(rank, s), Level(f)
  {
    var x, k := Via(f, e), Onward(g, rank, f, e);
    if s == e {
      EndSize(g, rank, f, e);
    } else if f.InOrder? && s == f.a {
      assert Selected(g, rank, f, s, e) == Selected(g, rank, Through(f.b), s, e) by {
        forall p | p in Paths(g, rank, s, e) ensures Keep(f, p) == Keep(Through(f.b), p) {
          PathRanks(g, rank, s, e, p);
          if f.b in p {
            var j :| 0 <= j < |p| && p[j] == f.b;
            assert p[0] == f.a;
          }
        }
      }
      SelectedSize(g, rank, Through(f.b), s, e);
    } else if f.InOrder? && s == f.b {
      assert Selected(g, rank, f, s, e) == {} by {
        forall p | p in Paths(g, rank, s, e) ensures !Keep(f, p) {
          PathRanks(g, rank, s, e, p);
        }
      }
      NoCycle(g, rank, f.a, f.b);
    } else if f.Through? && s == f.b {
      assert Selected(g, rank, f, s, e) == Selected(g, rank, All, s, e) by {
        forall p | p in Paths(g, rank, s, e) ensures f.b in p {
          PathRanks(g, rank, s, e, p);
        }
      }
      SelectedSize(g, rank, All, s, e);
    } else if s !in g {
      assert Selected(g, rank, f, s, e) == {};
    } else {
      forall v | v in g[s] ensures |Selected(g, rank, f, v, e)| == Count(g, rank, v, x) * k {
        SelectedSize(g, rank, f, v, e);
      }
      assert Selected(g, rank, f, s, e) == Extended(g, rank, f, s, g[s], e) by {
        forall p ensures p in Selected(g, rank, f, s, e) <==> p in Extended(g, rank, f, s, g[s], e) {
          if p in Paths(g, rank, s, e) {
            var v, q :| v in g[s] && q in Paths(g, rank, v, e) && p == [s] + q;
            KeepPrepend(f, s, q);
          }
          if p in Extended(g, rank, f, s, g[s], e) {
            var v, q :| v in g[s] && q in Selected(g, rank, f, v, e) && p == [s] + q;
            KeepPrepend(f, s, q);
          }
        }
      }
      ExtendedSize(g, rank, f, s, g[s], e);
    }
  }

  /** From the end device itself only the one-device path is left, and a
      filter asking for another device keeps none. */
  lemma EndSize(g: Graph, rank: map<string, nat>, f: Filter, e: string)
    requires Ranked(g, rank) && Fits(f, e)
    ensures |Selected(g, rank, f, e, e)| == Count(g, rank, e, Via(f, e)) * Onward(g, rank, f, e)
  {
    assert Paths(g, rank, e, e) == {[e]};
    match f
    case All =>
      assert Selected(g, rank, f, e, e) == {[e]};
    case Through(b) =>
      assert Selected(g, rank, f, e, e) == {};
      NoCycle(g, rank, e, b);
    case InOrder(a, b) =>
      assert Selected(g, rank, f, e, e) == {};
      var n1, n2, n3 := Count(g, rank, e, a), Count(g, rank, a, b), Count(g, rank, b, e);
      if n1 > 0 && n2 > 0 && n3 > 0 {
        CountPositive(g, rank, e, a);
        CountPositive(g, rank, a, b);
        CountPositive(g, rank, b, e);
      }
      assert n1 == 0 || n2 == 0 || n3 == 0;
  }

  /** `count_paths(s, e)` is the number of paths from `s` to their first
      arrival at `e`. */
  lemma CountIsPaths(g: Graph, rank: map<string, nat>, s: string, e: string)
    requires Ranked(g, rank)
    ensures |Paths(g, rank, s, e)| == Count(g, rank, s, e)
  {
    SelectedSize(g, rank, All, s, e);
    assert Selected(g, rank, All, s, e) == Paths(g, rank, s, e);
  }

  /** The paths from `s` to `e` that visit both `a` and `b`. */
  ghost function ThroughBoth(g: Graph, rank: map<string, nat>, s: string, a: string, b: string, e: string): set<seq<string>>
    requires Ranked(g, rank)
  {
    set p | p in Paths(g, rank, s, e) && a in p && b in p
  }

  /** A path through both `a` and `b` meets them in one order or the other. */
  lemma ThroughBothOrders(g: Graph, rank: map<string, nat>, s: string, a: string, b: string, e: string)
    requires Ranked(g, rank) && a != b
    ensures ThroughBoth(g, rank, s, a, b, e) == Selected(g, rank, InOrder(a, b), s, e) + Selected(g, rank, InOrder(b, a), s, e)
  {
    forall p | p in ThroughBoth(g, rank, s, a, b, e)
      ensures p in Selected(g, rank, InOrder(a, b), s, e) || p in Selected(g, rank, InOrder(b, a), s, e)
    {
      var i :| 0 <= i < |p| && p[i] == a;
      var j :| 0 <= j < |p| && p[j] == b;
      assert i < j ==> Keep(InOrder(a, b), p);
      assert j < i ==> Keep(InOrder(b, a), p);
    }
  }

  /** ... and never in both, since no device appears twice on a path. */
  lemma OrdersDisjoint(g: Graph, rank: map<string, nat>, s: string, a: string, b: string, e: string)
    requires Ranked(g, rank)
    ensures Selected(g, rank, InOrder(a, b), s, e) !! Selected(g, rank, InOrder(b, a), s, e)
  {
    forall p | p in Selected(g, rank, InOrder(a, b), s, e) ensures !Keep(InOrder(b, a), p) {
      PathRanks(g, rank, s, e, p);
      var i, j :| 0 <= i < j < |p| && p[i] == a && p[j] == b;
      assert rank[p[j]] < rank[p[i]];
    }
  }

  /** The paths through both `a` and `b` are those through `a` then `b`
      plus those through `b` then `a`, each counted as a product. */
  lemma ThroughBothSize(g: Graph, rank: map<string, nat>, s: string, a: string, b: string, e: string)
    requires Ranked(g, rank) && a != b && a != e && b != e
    ensures |ThroughBoth(g, rank, s, a, b, e)|
      == Count(g, rank, s, a) * Count(g, rank, a, b) * Count(g, rank, b, e)
       + Count(g, rank, s, b) * Count(g, rank, b, a) * Count(g, rank, a, e)
  {
    var ab, ba := Selected(g, rank, InOrder(a, b), s, e), Selected(g, rank, InOrder(b, a), s, e);
    ThroughBothOrders(g, rank, s, a, b, e);
    OrdersDisjoint(g, rank, s, a, b, e);
    DisjointUnionSize(ab, ba);
    SelectedSize(g, rank, InOrder(a, b), s, e);
    SelectedSize(g, rank, InOrder(b, a), s, e);
    MulAssoc(Count(g, rank, s, a), Count(g, rank, a, b), Count(g, rank, b, e));
    MulAssoc(Count(g, rank, s, b), Count(g, rank, b, a), Count(g, rank, a, e));
  }

  lemma MulAssoc(x: nat, y: nat, z: nat)
    ensures x * (y * z) == x * y * z
  {
  }

  // ------------------------------------------------- the memoised search

  /** Every cached value is the count the plain recursion gives. */
  ghost predicate Cached(g: Graph, rank: map<string, nat>, memo: map<string, nat>, e: string)
    requires Ranked(g, rank)
  {
    forall k :: k in memo ==> memo[k] == Count(g, rank, k, e)
  }

  /** `dfs`: the cache answers first, the end device counts 1, and otherwise
      the successors' counts are added up in whatever order the set yields
      them; the result is cached before it is returned. */
  method Dfs(g: Graph, ghost rank: map<string, nat>, node: string, end: string, memo: map<string, nat>)
    returns (total: nat, memo': map<string, nat>)
    requires Ranked(g, rank) && Cached(g, rank, memo, end)
    ensures total == Count(g, rank, node, end)
    ensures Cached(g, rank, memo', end) && memo.Keys <= memo'.Keys && node in memo'
    decreases Height(rank, node), 1
  {
    if node in memo {
      return memo[node], memo;
    }
    if node == end {
      return 1, memo[node := 1];
    }
    total, memo' := 0, memo;
    if node in g {
      total, memo' := VisitSuccessors(g, rank, node, end, memo);
    }
    memo' := memo'[node := total];
  }

  /** The loop of `dfs` over the successors of `node`: their counts, summed,
      with the cache kept correct. */
  method VisitSuccessors(g: Graph, ghost rank: map<string, nat>, node: string, end: string, memo: map<string, nat>)
    returns (total: nat, memo': map<string, nat>)
    requires Ranked(g, rank) && Cached(g, rank, memo, end) && node in g
    ensures total == SuccSum(g, rank, node, g[node], end)
    ensures Cached(g, rank, memo', end) && memo.Keys <= memo'.Keys
    decreases Height(rank, node), 0
  {
    total, memo' := 0, memo;
    var rest := g[node];
    while rest != {}
      invariant rest <= g[node]
      invariant total == SuccSum(g, rank, node, g[node] - rest, end)
      invariant Cached(g, rank, memo', end) && memo.Keys <= memo'.Keys
      decreases |rest|
    {
      var v :| v in rest;
      var t;
      t, memo' := Dfs(g, rank, v, end, memo');
      SuccSumAdd(g, rank, node, g[node] - rest, end, v);
      TakeOne(g[node], rest, v);
      total := total + t;
      rest := rest - {v};
    }
    assert g[node] - rest == g[node];
  }

  /** `count_paths`: a search with a fresh cache. */
  method CountPaths(g: Graph, ghost rank: map<string, nat>, start: string, end: string) returns (n: nat)
    requires Ranked(g, rank)
    ensures n == |Paths(g, rank, start, end)|
  {
    var memo;
    n, memo := Dfs(g, rank, start, end, map[]);
    CountIsPaths(g, rank, start, end);
  }

  /** `solve_part_1`: the number of paths from "you" to "out". */
  method SolvePart1(g: Graph, ghost rank: map<string, nat>) returns (r: nat)
    requires Ranked(g, rank)
    ensures r == |Paths(g, rank, "you", "out")|
  {
    r := CountPaths(g, rank, "you", "out");
  }

  /** `solve_part_2`: the paths from "svr" to "out" through "dac" then "fft"
      plus those through "fft" then "dac", which together are the paths
      through both. */
  method SolvePart2(g: Graph, ghost rank: map<string, nat>) returns (r: nat)
    requires Ranked(g, rank)
    ensures r == |ThroughBoth(g, rank, "svr", "dac", "fft", "out")|
  {
    var dacBeforeFft := CountVia(g, rank, "svr", "dac", "fft", "out");
    var fftBeforeDac := CountVia(g, rank, "svr", "fft", "dac", "out");
    r := dacBeforeFft + fftBeforeDac;
    assert "dac"[0] == 'd' && "fft"[0] == 'f' && "out"[0] == 'o';
    ThroughBothPaths(g, rank, "svr", "dac", "fft", "out");
  }

  /** The product of the path counts from `s` to `a`, `a` to `b` and `b` to `e`. */
  method CountVia(g: Graph, ghost rank: map<string, nat>, s: string, a: string, b: string, e: string) returns (n: nat)
    requires Ranked(g, rank)
    ensures n == |Paths(g, rank, s, a)| * |Paths(g, rank, a, b)| * |Paths(g, rank, b, e)|
  {
    var first := CountPaths(g, rank, s, a);
    var second := CountPaths(g, rank, a, b);
    var third := CountPaths(g, rank, b, e);
    n := first * second * third;
  }

  /** `ThroughBothSize` with each count read as a number of paths. */
  lemma ThroughBothPaths(g: Graph, rank: map<string, nat>, s: string, a: string, b: string, e: string)
    requires Ranked(g, rank) && a != b && a != e && b != e
    ensures |ThroughBoth(g, rank, s, a, b, e)|
      == |Paths(g, rank, s, a)| * |Paths(g, rank, a, b)| * |Paths(g, rank, b, e)|
       + |Paths(g, rank, s, b)| * |Paths(g, rank, b, a)| * |Paths(g, rank, a, e)|
  {
    CountIsPaths(g, rank, s, a);
    CountIsPaths(g, rank, a, b);
    CountIsPaths(g, rank, b, e);
    CountIsPaths(g, rank, s, b);
    CountIsPaths(g, rank, b, a);
    CountIsPaths(g, rank, a, e);
    ThroughBothSize(g, rank, s, a, b, e);
  }
}
