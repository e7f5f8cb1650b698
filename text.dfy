// The parts of Rust's `str` API that the puzzle parsers rely on, each
// modelled by its documented behaviour on a `string` (a `seq<char>`):
// `lines`, `split`, `split_once`, `trim`, `split_whitespace`, the integer
// `parse` for unsigned and signed types, and `to_string` for naturals; and
// the rounding divisions of the `num` crate.
module Text {

  datatype Option<T> = None | Some(value: T)

  predicate IsDigit(c: char) { '0' <= c <= '9' }

  predicate AllDigits(s: string) { forall i :: 0 <= i < |s| ==> IsDigit(s[i]) }

  function DigitValue(c: char): (d: nat)
    requires IsDigit(c)
    ensures d < 10
  {
    c as int - '0' as int
  }

  function DigitChar(d: nat): (c: char)
    requires d < 10
    ensures IsDigit(c) && DigitValue(c) == d
  {
    ('0' as int + d) as char
  }

  /** The number a string of decimal digits denotes, most significant first. */
  function DigitsValue(s: string): nat
    requires AllDigits(s)
  {
    if s == [] then 0 else DigitsValue(s[..|s| - 1]) * 10 + DigitValue(s[|s| - 1])
  }

  function Pow10(e: nat): (p: nat)
    ensures p >= 1
  {
    if e == 0 then 1 else 10 * Pow10(e - 1)
  }

  lemma {:induction false} Pow10Add(a: nat, b: nat)
    ensures Pow10(a + b) == Pow10(a) * Pow10(b)
  {
    if b > 0 {
      Pow10Add(a, b - 1);
      assert Pow10(a + b) == 10 * Pow10(a + b - 1);
    }
  }

  lemma {:induction false} Pow10Monotone(a: nat, b: nat)
    requires a <= b
    ensures Pow10(a) <= Pow10(b)
    ensures a < b ==> 10 * Pow10(a) <= Pow10(b)
    decreases b
  {
    if a < b { Pow10Monotone(a, b - 1); }
  }

  /** The value of a digit string written after another one. */
  lemma {:induction false} DigitsValueAppend(a: string, b: string)
    requires AllDigits(a) && AllDigits(b)
    ensures AllDigits(a + b)
    ensures DigitsValue(a + b) == DigitsValue(a) * Pow10(|b|) + DigitsValue(b)
    decreases |b|
  {
    AllDigitsConcat(a, b);
    if b == [] {
      assert a + b == a;
    } else {
      var b' := b[..|b| - 1];
      AllDigitsConcat(a, b');
      assert (a + b)[..|a + b| - 1] == a + b';
      assert (a + b)[|a + b| - 1] == b[|b| - 1];
      DigitsValueAppend(a, b');
      var x, q, y, d := DigitsValue(a), Pow10(|b'|), DigitsValue(b'), DigitValue(b[|b| - 1]);
      assert DigitsValue(a + b) == DigitsValue(a + b') * 10 + d;
      assert DigitsValue(b) == y * 10 + d;
      Distribute10(x, q, y);
    }
  }

  lemma Distribute10(x: int, q: int, y: int)
    ensures (x * q + y) * 10 == x * (10 * q) + y * 10
  {
  }

  lemma AllDigitsConcat(a: string, b: string)
    requires AllDigits(a) && AllDigits(b)
    ensures AllDigits(a + b)
  {
    forall j | 0 <= j < |a + b| ensures IsDigit((a + b)[j]) {
      if j >= |a| { assert (a + b)[j] == b[j - |a|]; }
    }
  }

  /** A digit string of length `n` denotes less than 10^n, and at least
      10^(n-1) when it does not start with `0`. */
  lemma {:induction false} DigitsValueBounds(s: string)
    requires AllDigits(s)
    ensures DigitsValue(s) < Pow10(|s|)
    ensures s != [] && s[0] != '0' ==> Pow10(|s| - 1) <= DigitsValue(s)
  {
    if s != [] {
      var s' := s[..|s| - 1];
      DigitsValueBounds(s');
      if |s| == 1 {
        assert DigitsValue(s) == DigitValue(s[0]);
      } else {
        assert s'[0] == s[0];
      }
    }
  }

  lemma DigitCharOfValue(c: char)
    requires IsDigit(c)
    ensures DigitChar(DigitValue(c)) == c
  {
  }

  /** `to_string` gives back every digit string without a leading zero. */
  lemma {:induction false} ShowDigitsValue(s: string)
    requires AllDigits(s) && s != [] && (s[0] != '0' || |s| == 1)
    ensures Show(DigitsValue(s)) == s
  {
    var n := DigitsValue(s);
    var c := s[|s| - 1];
    DigitCharOfValue(c);
    if |s| == 1 {
      assert s[..|s| - 1] == [];
      assert DigitsValue(s[..|s| - 1]) == 0;
      assert n == DigitValue(c);
    } else {
      var s' := s[..|s| - 1];
      assert s'[0] == s[0];
      DigitsValueBounds(s');
      ShowDigitsValue(s');
      assert n == DigitsValue(s') * 10 + DigitValue(c);
      assert n / 10 == DigitsValue(s') && n % 10 == DigitValue(c);
      assert s == s' + [c];
    }
  }

  /** Rust's `u64::from_str` without the overflow check: an optional `+`
      followed by at least one decimal digit. */
  function ParseUnsigned(s: string): (r: Option<nat>)
    ensures r.Some? <==> (AllDigits(s) && s != []) || (|s| >= 2 && s[0] == '+' && AllDigits(s[1..]))
  {
    if |s| > 0 && s[0] == '+' then
      (if |s| > 1 && AllDigits(s[1..]) then Some(DigitsValue(s[1..])) else None)
    else if s != [] && AllDigits(s) then Some(DigitsValue(s))
    else None
  }

  /** Rust's `i64::from_str` (or `i32`) without the overflow check: an optional
      sign followed by at least one decimal digit. */
  function ParseSigned(s: string): (r: Option<int>)
    ensures s != [] && AllDigits(s) ==> r == Some(DigitsValue(s) as int)
  {
    if |s| > 0 && s[0] == '-' then
      (if |s| > 1 && AllDigits(s[1..]) then Some(-(DigitsValue(s[1..]) as int)) else None)
    else match ParseUnsigned(s)
      case Some(n) => Some(n as int)
      case None => None
  }

  /** Decimal representation without leading zeros, as `to_string` gives it. */
  function Show(n: nat): (s: string)
    ensures s != [] && AllDigits(s)
    ensures s[0] != '0' || n == 0
  {
    if n < 10 then [DigitChar(n)] else Show(n / 10) + [DigitChar(n % 10)]
  }

  lemma {:induction false} ShowValue(n: nat)
    ensures DigitsValue(Show(n)) == n
  {
    if n >= 10 {
      var s := Show(n);
      assert s[..|s| - 1] == Show(n / 10);
      ShowValue(n / 10);
    }
  }

  /** Parsing what `to_string` printed gives the number back. */
  lemma ParseShow(n: nat)
    ensures ParseUnsigned(Show(n)) == Some(n)
    ensures ParseSigned(Show(n)) == Some(n as int)
  {
    ShowValue(n);
  }

  /** `num::Integer::div_floor` with a positive divisor (Dafny's `/` rounds down there). */
  function FloorDiv(a: int, b: int): (q: int)
    requires b > 0
    ensures q * b <= a < q * b + b
  {
    a / b
  }

  /** `num::Integer::div_ceil` with a positive divisor. */
  function CeilDiv(a: int, b: int): (q: int)
    requires b > 0
    ensures q * b - b < a <= q * b
  {
    -((-a) / b)
  }

  /** Position of the first `c` in `s`, or `|s|` when there is none. */
  function IndexOf(s: string, c: char): (i: nat)
    ensures i <= |s| && c !in s[..i]
    ensures i < |s| ==> s[i] == c
  {
    if s == [] then 0
    else if s[0] == c then 0
    else
      var j := IndexOf(s[1..], c);
      assert s[..1 + j] == [s[0]] + s[1..][..j];
      1 + j
  }

  /** The first `c` in `a + [c] + b` is the one after `a` when `a` has none. */
  lemma {:induction false} IndexOfAfter(a: string, c: char, b: string)
    requires c !in a
    ensures IndexOf(a + [c] + b, c) == |a|
  {
    if a != [] {
      assert (a + [c] + b)[1..] == a[1..] + [c] + b;
      IndexOfAfter(a[1..], c, b);
    }
  }

  /** `split_once` undoes joining two pieces with a separator the first
      piece does not contain. */
  lemma SplitOnceJoin(a: string, c: char, b: string)
    requires c !in a
    ensures SplitOnce(a + [c] + b, c) == Some((a, b))
  {
    var s := a + [c] + b;
    IndexOfAfter(a, c, b);
    assert s[..|a|] == a && s[|a| + 1..] == b;
  }

  /** `str::split_once(c)`: the text before and after the first `c`. */
  function SplitOnce(s: string, c: char): (r: Option<(string, string)>)
    ensures r.None? <==> c !in s
    ensures r.Some? ==> s == r.value.0 + [c] + r.value.1 && c !in r.value.0
  {
    var i := IndexOf(s, c);
    if i == |s| then None
    else
      assert s == s[..i] + [c] + s[i + 1..];
      Some((s[..i], s[i + 1..]))
  }

  /** `sep` occurs in `s` at position `j`. */
  predicate MatchAt(s: string, sep: string, j: nat)
  {
    j + |sep| <= |s| && s[j..j + |sep|] == sep
  }

  /** Position of the first occurrence of `sep` in `s`, or `|s|` when there is none. */
  function FindStr(s: string, sep: string): (i: nat)
    requires sep != []
    ensures i <= |s|
    ensures i < |s| ==> MatchAt(s, sep, i)
    ensures forall j :: 0 <= j < i ==> !MatchAt(s, sep, j)
    decreases |s|
  {
    if |s| < |sep| then |s|
    else if s[..|sep|] == sep then 0
    else
      var k := FindStr(s[1..], sep);
      assert forall j :: 1 <= j <= |s| ==> MatchAt(s[1..], sep, j - 1) == MatchAt(s, sep, j) by {
        forall j | 1 <= j <= |s| ensures MatchAt(s[1..], sep, j - 1) == MatchAt(s, sep, j) {
          if j + |sep| <= |s| { assert s[1..][j - 1..j - 1 + |sep|] == s[j..j + |sep|]; }
        }
      }
      assert s[0..|sep|] == s[..|sep|];
      1 + k
  }

  /** `str::split_once` with a string pattern: the text before and after the
      first occurrence of `sep`. */
  function SplitOnceStr(s: string, sep: string): (r: Option<(string, string)>)
    requires sep != []
    ensures r.None? <==> forall j :: 0 <= j <= |s| ==> !MatchAt(s, sep, j)
    ensures r.Some? ==> s == r.value.0 + sep + r.value.1 && forall j :: 0 <= j < |r.value.0| ==> !MatchAt(s, sep, j)
  {
    var i := FindStr(s, sep);
    if i == |s| then
      assert !MatchAt(s, sep, |s|);
      None
    else
      assert s == s[..i] + s[i..i + |sep|] + s[i + |sep|..];
      Some((s[..i], s[i + |sep|..]))
  }

  /** `str::split(c)`: the pieces between the occurrences of `c`, always at least one. */
  function Split(s: string, c: char): (parts: seq<string>)
    ensures |parts| >= 1
    ensures forall k :: 0 <= k < |parts| ==> c !in parts[k]
    ensures c !in s ==> parts == [s]
    decreases |s|
  {
    var i := IndexOf(s, c);
    if i == |s| then [s] else [s[..i]] + Split(s[i + 1..], c)
  }

  /** Strips one trailing carriage return, as `lines` does for a `\r\n` ending. */
  function StripCr(line: string): string
  {
    if |line| > 0 && line[|line| - 1] == '\r' then line[..|line| - 1] else line
  }

  /** `str::lines`: split at `\n`, drop a `\r` before it, and produce no final
      empty line when the text ends with a line ending (or is empty). */
  function Lines(s: string): (ls: seq<string>)
    ensures forall k :: 0 <= k < |ls| ==> '\n' !in ls[k]
    ensures s == [] ==> ls == []
    decreases |s|
  {
    var i := IndexOf(s, '\n');
    if s == [] then []
    else if i == |s| then [s]
    else [StripCr(s[..i])] + Lines(s[i + 1..])
  }

  /** `char::is_whitespace`: the Unicode White_Space property. */
  predicate IsWhitespace(c: char)
  {
    c == ' ' || '\t' <= c <= '\r' || c == '\U{85}' || c == '\U{A0}' || c == '\U{1680}'
    || '\U{2000}' <= c <= '\U{200A}' || c == '\U{2028}' || c == '\U{2029}' || c == '\U{202F}'
    || c == '\U{205F}' || c == '\U{3000}'
  }

  function TrimStart(s: string): (r: string)
    ensures r == [] || !IsWhitespace(r[0])
    ensures |r| <= |s|
    ensures s == [] || !IsWhitespace(s[0]) ==> r == s
  {
    if s != [] && IsWhitespace(s[0]) then TrimStart(s[1..]) else s
  }

  function TrimEnd(s: string): (r: string)
    ensures r == [] || !IsWhitespace(r[|r| - 1])
    ensures |r| <= |s|
    ensures s == [] || !IsWhitespace(s[|s| - 1]) ==> r == s
  {
    if s != [] && IsWhitespace(s[|s| - 1]) then TrimEnd(s[..|s| - 1]) else s
  }

  /** `str::trim`: no leading or trailing whitespace. */
  function Trim(s: string): string
  {
    TrimEnd(TrimStart(s))
  }

  /** `str::split_whitespace`: the maximal runs of non-whitespace characters. */
  function SplitWhitespace(s: string): (tokens: seq<string>)
    ensures forall k :: 0 <= k < |tokens| ==> tokens[k] != [] && forall j :: 0 <= j < |tokens[k]| ==> !IsWhitespace(tokens[k][j])
    decreases |s|
  {
    var t := TrimStart(s);
    if t == [] then []
    else
      var n := TokenLength(t);
      [t[..n]] + SplitWhitespace(t[n..])
  }

  /** Length of the leading run of non-whitespace characters. */
  function TokenLength(s: string): (n: nat)
    ensures n <= |s|
    ensures forall j :: 0 <= j < n ==> !IsWhitespace(s[j])
    ensures n < |s| ==> IsWhitespace(s[n])
    ensures s != [] && !IsWhitespace(s[0]) ==> n > 0
  {
    if s == [] || IsWhitespace(s[0]) then 0 else 1 + TokenLength(s[1..])
  }

  /** Each line followed by a line feed: the text that `lines` splits back. */
  function JoinLines(ls: seq<string>): string
  {
    if ls == [] then [] else ls[0] + "\n" + JoinLines(ls[1..])
  }

  /** `lines` undoes `JoinLines` when no line holds a line feed or ends with a
      carriage return. */
  lemma {:induction false} LinesJoinLines(ls: seq<string>)
    requires forall k :: 0 <= k < |ls| ==> '\n' !in ls[k] && StripCr(ls[k]) == ls[k]
    ensures Lines(JoinLines(ls)) == ls
  {
    if ls != [] {
      var s := JoinLines(ls);
      var i := |ls[0]|;
      assert s == ls[0] + "\n" + JoinLines(ls[1..]);
      assert s[..i] == ls[0];
      assert IndexOf(s, '\n') == i by {
        var j := IndexOf(s, '\n');
        assert s[i] == '\n';
      }
      assert s[i + 1..] == JoinLines(ls[1..]);
      LinesJoinLines(ls[1..]);
    }
  }

  /** Lines that are non-empty and hold no line feed, each ending in something
      other than a carriage return. */
  predicate PlainLines(ls: seq<string>)
  {
    forall k :: 0 <= k < |ls| ==> ls[k] != [] && '\n' !in ls[k] && StripCr(ls[k]) == ls[k]
  }

  /** Joined plain lines never hold two line feeds in a row. */
  lemma {:induction false} JoinLinesNoBlank(ls: seq<string>)
    requires PlainLines(ls)
    ensures forall j :: 0 <= j && j + 1 < |JoinLines(ls)| ==> !(JoinLines(ls)[j] == '\n' && JoinLines(ls)[j + 1] == '\n')
  {
    if ls != [] {
      var s, rest := JoinLines(ls), JoinLines(ls[1..]);
      JoinLinesNoBlank(ls[1..]);
      assert s == ls[0] + "\n" + rest;
      forall j | 0 <= j && j + 1 < |s| ensures !(s[j] == '\n' && s[j + 1] == '\n') {
        if j < |ls[0]| {
          assert s[j] == ls[0][j];
        } else if j == |ls[0]| {
          assert s[j + 1] == rest[0] == ls[1][0];
        } else {
          assert s[j] == rest[j - |ls[0]| - 1] && s[j + 1] == rest[j - |ls[0]|];
        }
      }
    }
  }

  /** `lines` also undoes `JoinLines` when the last line feed is left off. */
  lemma LinesJoinLinesDropLast(ls: seq<string>)
    requires ls != [] && PlainLines(ls)
    ensures |JoinLines(ls)| > 0
    ensures Lines(JoinLines(ls)[..|JoinLines(ls)| - 1]) == ls
  {
    JoinLinesEnds(ls);
    LinesJoinLines(ls);
    LinesDropFinal(JoinLines(ls));
  }

  /** The first `c` is the one at `i` when none comes before it. */
  lemma {:induction false} IndexOfAt(s: string, c: char, i: nat)
    requires i < |s| && s[i] == c && c !in s[..i]
    ensures IndexOf(s, c) == i
  {
    if i > 0 {
      assert s[1..][..i - 1] == s[..i][1..];
      IndexOfAt(s[1..], c, i - 1);
    }
  }

  /**
   * A final line feed after a character that is neither a line feed nor a
   * carriage return ends the last line without adding one.
   */
  lemma {:induction false} LinesDropFinal(s: string)
    requires |s| >= 2 && s[|s| - 1] == '\n' && s[|s| - 2] != '\n' && s[|s| - 2] != '\r'
    ensures Lines(s[..|s| - 1]) == Lines(s)
    decreases |s|
  {
    var t := s[..|s| - 1];
    var i := IndexOf(s, '\n');
    if i == |s| - 1 {
      assert t == s[..i];
      assert IndexOf(t, '\n') == |t|;
      assert s[i + 1..] == [];
    } else {
      assert t[i] == '\n' && t[..i] == s[..i];
      IndexOfAt(t, '\n', i);
      var r := s[i + 1..];
      assert t[i + 1..] == r[..|r| - 1];
      LinesDropFinal(r);
    }
  }

  /** `to_string` of a signed integer: a minus sign before a negative one. */
  function ShowSigned(i: int): (s: string)
    ensures s != [] && IsDigit(s[|s| - 1]) && (IsDigit(s[0]) || s[0] == '-')
    ensures forall j :: 0 <= j < |s| ==> IsDigit(s[j]) || s[j] == '-'
  {
    if i < 0 then "-" + Show(-i) else Show(i)
  }

  /** Parsing what `to_string` printed gives the signed number back. */
  lemma ParseShowSigned(i: int)
    ensures ParseSigned(ShowSigned(i)) == Some(i)
  {
    if i < 0 {
      var s := ShowSigned(i);
      assert s[1..] == Show(-i);
      ShowValue(-i);
    } else {
      ParseShow(i);
    }
  }

  /** `split(c)` takes off a first piece that does not contain `c`. */
  lemma SplitJoin(a: string, c: char, b: string)
    requires c !in a
    ensures Split(a + [c] + b, c) == [a] + Split(b, c)
  {
    var s := a + [c] + b;
    IndexOfAfter(a, c, b);
    assert s[..|a|] == a && s[|a| + 1..] == b;
  }

  /** A text with no whitespace at either end is its own trim. */
  lemma TrimNoEdges(s: string)
    requires s != [] && !IsWhitespace(s[0]) && !IsWhitespace(s[|s| - 1])
    ensures Trim(s) == s
  {
  }

  /** The joined text of plain lines starts with the first line's first
      character and ends with the last line's last character and a line feed. */
  lemma {:induction false} JoinLinesEnds(ls: seq<string>)
    requires ls != [] && PlainLines(ls)
    ensures var s, last := JoinLines(ls), ls[|ls| - 1];
      && |s| >= 2 && s[0] == ls[0][0] && s[|s| - 1] == '\n' && s[|s| - 2] == last[|last| - 1]
  {
    var s, rest := JoinLines(ls), JoinLines(ls[1..]);
    assert s == ls[0] + "\n" + rest;
    if |ls| > 1 {
      JoinLinesEnds(ls[1..]);
      assert s[|s| - 2] == rest[|rest| - 2];
    }
  }

  /** `trim` takes just the final line feed off joined plain lines whose
      outer ends are not whitespace. */
  lemma TrimJoinLines(ls: seq<string>)
    requires ls != [] && PlainLines(ls)
    requires !IsWhitespace(ls[0][0]) && !IsWhitespace(ls[|ls| - 1][|ls[|ls| - 1]| - 1])
    ensures var s := JoinLines(ls); |s| > 0 && Trim(s) == s[..|s| - 1]
  {
    var s := JoinLines(ls);
    JoinLinesEnds(ls);
    var t := s[..|s| - 1];
    assert TrimStart(s) == s;
    assert TrimEnd(s) == TrimEnd(t);
    assert TrimEnd(t) == t;
  }

  /** `trim` then `lines` gives back joined plain lines whose outer ends are
      not whitespace. */
  lemma LinesTrimJoinLines(ls: seq<string>)
    requires ls != [] && PlainLines(ls)
    requires !IsWhitespace(ls[0][0]) && !IsWhitespace(ls[|ls| - 1][|ls[|ls| - 1]| - 1])
    ensures Lines(Trim(JoinLines(ls))) == ls
  {
    TrimJoinLines(ls);
    LinesJoinLinesDropLast(ls);
  }

  /** Applies `f` to every element, in order; None when any application is None. */
  function AllSome<A, B>(xs: seq<A>, f: A -> Option<B>): (r: Option<seq<B>>)
    ensures r.Some? ==> |r.value| == |xs|
  {
    if xs == [] then Some([])
    else match (AllSome(xs[..|xs| - 1], f), f(xs[|xs| - 1]))
      case (Some(init), Some(last)) => Some(init + [last])
      case _ => None
  }

  /** Each element gives its own result, and the whole fails exactly when one element does. */
  lemma {:induction false} AllSomeEach<A, B>(xs: seq<A>, f: A -> Option<B>)
    ensures AllSome(xs, f).Some? ==> forall i :: 0 <= i < |xs| ==> f(xs[i]) == Some(AllSome(xs, f).value[i])
    ensures AllSome(xs, f).None? <==> exists i :: 0 <= i < |xs| && f(xs[i]).None?
  {
    if xs != [] {
      var init := xs[..|xs| - 1];
      AllSomeEach(init, f);
      assert forall i :: 0 <= i < |init| ==> init[i] == xs[i];
    }
  }

  /** `f` maps the elements of `xs` to the elements of `ys`, position by position. */
  ghost predicate MapsTo<A, B>(xs: seq<A>, f: A -> Option<B>, ys: seq<B>)
  {
    |xs| == |ys| && forall i :: 0 <= i < |xs| ==> f(xs[i]) == Some(ys[i])
  }

  /** Extending a mapped prefix of `xs` by its next element. */
  lemma MapsToStep<A, B>(xs: seq<A>, f: A -> Option<B>, ys: seq<B>, i: nat, y: B)
    requires i < |xs| && MapsTo(xs[..i], f, ys) && f(xs[i]) == Some(y)
    ensures MapsTo(xs[..i + 1], f, ys + [y])
  {
    var xs', ys' := xs[..i + 1], ys + [y];
    forall k | 0 <= k < |xs'|
      ensures f(xs'[k]) == Some(ys'[k])
    {
      if k < i {
        assert xs'[k] == xs[..i][k] && ys'[k] == ys[k];
      }
    }
  }

  /** When every element maps, AllSome gives exactly the mapped elements. */
  lemma {:induction false} MapsToAllSome<A, B>(xs: seq<A>, f: A -> Option<B>, ys: seq<B>)
    requires MapsTo(xs, f, ys)
    ensures AllSome(xs, f) == Some(ys)
  {
    if xs != [] {
      var k := |xs| - 1;
      assert MapsTo(xs[..k], f, ys[..k]) by {
        assert forall i :: 0 <= i < k ==> xs[..k][i] == xs[i] && ys[..k][i] == ys[i];
      }
      MapsToAllSome(xs[..k], f, ys[..k]);
      assert ys[..k] + [ys[k]] == ys;
    }
  }

  /** One failing element makes the whole sequence fail. */
  lemma AllSomeNoneAt<A, B>(xs: seq<A>, f: A -> Option<B>, i: nat)
    requires i < |xs| && f(xs[i]).None?
    ensures AllSome(xs, f).None?
  {
    AllSomeEach(xs, f);
  }
}
