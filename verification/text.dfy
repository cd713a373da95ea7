/** Strings and the handful of Python string operations the cleaners use:
    the whitespace table behind str.isspace() and the regex class \s,
    strip/lstrip/rstrip, prefixes, substring search, str.split, str.count,
    str.splitlines, joins, and subsequences (the "only deletions" relation). */
module Text {

  datatype Option<T> = None | Some(value: T)

  /** Python's str.isspace() table; the regex class \s matches exactly these
      characters in a str pattern. */
  const SpaceChars: set<char> := {
    '\t', '\n', '\U{b}', '\U{c}', '\r', '\U{1c}', '\U{1d}', '\U{1e}', '\U{1f}', ' ',
    '\U{85}', '\U{a0}', '\U{1680}', '\U{2000}', '\U{2001}', '\U{2002}', '\U{2003}',
    '\U{2004}', '\U{2005}', '\U{2006}', '\U{2007}', '\U{2008}', '\U{2009}', '\U{200a}',
    '\U{2028}', '\U{2029}', '\U{202f}', '\U{205f}', '\U{3000}'
  }

  predicate IsSpace(c: char) {
    c in SpaceChars
  }


  /** The line boundaries of Python's str.splitlines(); "\r\n" counts as one. */
  predicate IsLineBreak(c: char) {
    ('\n' <= c <= '\r') || ('\U{1c}' <= c <= '\U{1e}') || c == '\U{85}' || c == '\U{2028}' || c == '\U{2029}'
  }

  /** The character classes the scanners skip over. */
  datatype CharClass = Spaces | Breaks | Among(chars: set<char>)

  predicate In(c: char, cl: CharClass) {
    match cl
    case Spaces => IsSpace(c)
    case Breaks => IsLineBreak(c)
    case Among(cs) => c in cs
  }

  predicate AllIn(s: string, cs: CharClass) {
    forall i :: 0 <= i < |s| ==> In(s[i], cs)
  }

  predicate AllSpace(s: string) {
    AllIn(s, Spaces)
  }

  /** Length of the longest prefix of `s` made only of characters in `cs`. */
  function SpanIn(s: string, cs: CharClass): (n: nat)
    ensures n <= |s|
  {
    if s == [] || !In(s[0], cs) then 0 else 1 + SpanIn(s[1..], cs)
  }

  /** The span is exactly the leading run of `cs`. */
  lemma {:induction false} SpanInRun(s: string, cs: CharClass)
    ensures forall k :: 0 <= k < SpanIn(s, cs) ==> In(s[k], cs)
    ensures SpanIn(s, cs) < |s| ==> !In(s[SpanIn(s, cs)], cs)
  {
    if s != [] && In(s[0], cs) {
      SpanInRun(s[1..], cs);
    }
  }

  /** Length of the longest prefix of `s` holding no character of `cs`
      (the index of the first character of `cs`, or |s|). */
  function SpanOut(s: string, cs: CharClass): (n: nat)
    ensures n <= |s|
  {
    if s == [] || In(s[0], cs) then 0 else 1 + SpanOut(s[1..], cs)
  }

  /** The span is exactly the leading run outside `cs`. */
  lemma {:induction false} SpanOutRun(s: string, cs: CharClass)
    ensures forall k :: 0 <= k < SpanOut(s, cs) ==> !In(s[k], cs)
    ensures SpanOut(s, cs) < |s| ==> In(s[SpanOut(s, cs)], cs)
  {
    if s != [] && !In(s[0], cs) {
      SpanOutRun(s[1..], cs);
    }
  }

  /** A run of `cs` of length `n` that stops at `n` is the span. */
  lemma {:induction false} SpanInIs(s: string, cs: CharClass, n: nat)
    requires n <= |s| && (forall k :: 0 <= k < n ==> In(s[k], cs)) && (n < |s| ==> !In(s[n], cs))
    ensures SpanIn(s, cs) == n
  {
    if n > 0 {
      SpanInIs(s[1..], cs, n - 1);
    }
  }

  /** A run outside `cs` of length `n` that stops at `n` is the span. */
  lemma {:induction false} SpanOutIs(s: string, cs: CharClass, n: nat)
    requires n <= |s| && (forall k :: 0 <= k < n ==> !In(s[k], cs)) && (n < |s| ==> In(s[n], cs))
    ensures SpanOut(s, cs) == n
  {
    if n > 0 {
      SpanOutIs(s[1..], cs, n - 1);
    }
  }

  /** Length of `s` once the trailing characters in `cs` are removed. */
  function KeepRight(s: string, cs: CharClass): (n: nat)
    ensures n <= |s|
  {
    if s == [] || !In(s[|s| - 1], cs) then |s| else KeepRight(s[..|s| - 1], cs)
  }

  /** What KeepRight cuts off is exactly the trailing run of `cs`. */
  lemma {:induction false} KeepRightRun(s: string, cs: CharClass)
    ensures forall k :: KeepRight(s, cs) <= k < |s| ==> In(s[k], cs)
    ensures 0 < KeepRight(s, cs) ==> !In(s[KeepRight(s, cs) - 1], cs)
  {
    if s != [] && In(s[|s| - 1], cs) {
      var init := s[..|s| - 1];
      KeepRightRun(init, cs);
      forall k | KeepRight(init, cs) <= k < |init| ensures In(s[k], cs) {
        assert init[k] == s[k];
      }
      if 0 < KeepRight(init, cs) {
        assert init[KeepRight(init, cs) - 1] == s[KeepRight(init, cs) - 1];
      }
    }
  }

  /** Splitting off the first element and appending commute. */
  lemma {:induction false} ConsAppend<T>(x: seq<T>, r: seq<T>)
    requires x != []
    ensures [x[0]] + (x[1..] + r) == x + r
  {
    assert x == [x[0]] + x[1..];
  }

  /** Python's s.lstrip(chars). */
  function LStrip(s: string, cs: CharClass): string {
    s[SpanIn(s, cs)..]
  }

  /** Python's s.rstrip(chars). */
  function RStrip(s: string, cs: CharClass): string {
    s[..KeepRight(s, cs)]
  }

  /** RStrip keeps a prefix and cuts off only characters of `cs`. */
  lemma {:induction false} RStripSplit(s: string, cs: CharClass)
    ensures s == RStrip(s, cs) + s[KeepRight(s, cs)..]
    ensures AllIn(s[KeepRight(s, cs)..], cs)
  {
    var n := KeepRight(s, cs);
    assert s == s[..n] + s[n..];
    KeepRightRun(s, cs);
  }

  /** Python's s.strip(chars); s.strip() is Strip(s, Spaces). */
  function Strip(s: string, cs: CharClass): string {
    RStrip(LStrip(s, cs), cs)
  }

  /** Strip leaves no character of `cs` at either end, and leaves nothing
      exactly when every character is in `cs`. */
  lemma {:induction false} StripEnds(s: string, cs: CharClass)
    ensures |Strip(s, cs)| <= |s|
    ensures var r := Strip(s, cs); r == [] || (!In(r[0], cs) && !In(r[|r| - 1], cs))
    ensures Strip(s, cs) == [] <==> AllIn(s, cs)
  {
    var i := SpanIn(s, cs);
    var t := s[i..];
    SpanInRun(s, cs);
    KeepRightRun(t, cs);
    if AllIn(s, cs) {
      assert i == |s|;
    } else if i == |s| {
      assert AllIn(s, cs);
    } else {
      assert !In(t[0], cs);
    }
  }

  /** Strip keeps one contiguous slice of `s` and removes only characters of `cs`. */
  lemma {:induction false} StripSlice(s: string, cs: CharClass)
    ensures SpanIn(s, cs) + |Strip(s, cs)| <= |s|
    ensures Strip(s, cs) == s[SpanIn(s, cs)..SpanIn(s, cs) + |Strip(s, cs)|]
  {
    var i := SpanIn(s, cs);
    var t := s[i..];
    var n := KeepRight(t, cs);
    assert Strip(s, cs) == t[..n];
    assert t[..n] == s[i..i + n];
  }

  /** What Strip drops on either side is made of `cs`. */
  lemma {:induction false} StripDropsOnly(s: string, cs: CharClass)
    ensures SpanIn(s, cs) + |Strip(s, cs)| <= |s|
    ensures AllIn(s[..SpanIn(s, cs)], cs)
    ensures AllIn(s[SpanIn(s, cs) + |Strip(s, cs)|..], cs)
  {
    var i := SpanIn(s, cs);
    var t := s[i..];
    var n := KeepRight(t, cs);
    SpanInRun(s, cs);
    KeepRightRun(t, cs);
    assert |Strip(s, cs)| == n;
    assert s[i + n..] == t[n..];
  }

  lemma {:induction false} StripIdempotent(s: string, cs: CharClass)
    ensures Strip(Strip(s, cs), cs) == Strip(s, cs)
  {
    var r := Strip(s, cs);
    StripEnds(s, cs);
    if r != [] {
      assert SpanIn(r, cs) == 0;
      assert KeepRight(r, cs) == |r|;
      assert LStrip(r, cs) == r;
    }
  }

  /** Strip brings in no character that `s` did not have. */
  lemma {:induction false} StripMembers(s: string, cs: CharClass)
    ensures forall x :: x in Strip(s, cs) ==> x in s
  {
    StripSlice(s, cs);
    var i := SpanIn(s, cs);
    var r := Strip(s, cs);
    forall x | x in r ensures x in s {
      var k :| 0 <= k < |r| && r[k] == x;
      assert r[k] == s[i + k];
    }
  }

  /** A string that starts with a character outside `cs` keeps that start under Strip. */
  lemma {:induction false} StripKeepsFirst(s: string, cs: CharClass)
    requires s != [] && !In(s[0], cs)
    ensures Strip(s, cs) == s[..KeepRight(s, cs)] && 0 < KeepRight(s, cs)
  {
    assert SpanIn(s, cs) == 0;
    assert LStrip(s, cs) == s;
    KeepRightRun(s, cs);
  }

  predicate StartsWith(s: string, p: string) {
    |p| <= |s| && s[..|p|] == p
  }

  predicate EndsWith(s: string, p: string) {
    |p| <= |s| && s[|s| - |p|..] == p
  }

  /** `p` occurs in `s` starting at index `i`. */
  predicate OccursAt(s: string, p: string, i: nat) {
    i + |p| <= |s| && s[i..i + |p|] == p
  }

  /** `p` occurs in `s` (Python's `p in s`). */
  predicate Contains(s: string, p: string) {
    exists i: nat :: i <= |s| && OccursAt(s, p, i)
  }

  /** Occurrences in a slice are occurrences in the whole, shifted. */
  lemma {:induction false} OccursInSlice(s: string, a: nat, b: nat, p: string, k: nat)
    requires a <= b <= |s|
    ensures OccursAt(s[a..b], p, k) ==> OccursAt(s, p, a + k)
    ensures a + k + |p| <= b ==> OccursAt(s, p, a + k) ==> OccursAt(s[a..b], p, k)
  {
    if a + k + |p| <= b {
      var u, v := s[a..b][k..k + |p|], s[a + k..a + k + |p|];
      assert |u| == |v| && forall j :: 0 <= j < |u| ==> u[j] == v[j];
    }
  }

  /** A substring of a string without `p` has no `p` either. */
  lemma {:induction false} NotContainsSlice(s: string, a: nat, b: nat, p: string)
    requires a <= b <= |s| && !Contains(s, p)
    ensures !Contains(s[a..b], p)
  {
    forall k: nat | k <= b - a
      ensures !OccursAt(s[a..b], p, k)
    {
      OccursInSlice(s, a, b, p, k);
    }
  }

  /** A text holding `q` holds every substring of `q`. */
  lemma {:induction false} ContainsWithin(s: string, q: string, p: string, o: nat)
    requires Contains(s, q) && OccursAt(q, p, o)
    ensures Contains(s, p)
  {
    var i: nat :| i <= |s| && OccursAt(s, q, i);
    assert s[i..i + |q|] == q;
    OccursInSlice(s, i, i + |q|, p, o);
  }

  /** `s` with every copy of `c` removed. */
  function Without(s: string, c: char): string {
    if s == [] then [] else (if s[0] == c then [] else [s[0]]) + Without(s[1..], c)
  }

  /** Filtering drops `c` and keeps every other character. */
  lemma {:induction false} WithoutMembers(s: string, c: char)
    ensures c !in Without(s, c)
    ensures forall d :: d != c ==> (d in Without(s, c) <==> d in s)
    decreases |s|
  {
    if s != [] {
      WithoutMembers(s[1..], c);
      assert s == [s[0]] + s[1..];
    }
  }

  /** Filtering works piece by piece. */
  lemma {:induction false} WithoutAppend(a: string, b: string, c: char)
    ensures Without(a + b, c) == Without(a, c) + Without(b, c)
    decreases |a|
  {
    if a == [] {
      assert a + b == b;
    } else {
      assert (a + b)[0] == a[0] && (a + b)[1..] == a[1..] + b;
      WithoutAppend(a[1..], b, c);
    }
  }

  /** Filtering out a character the text lacks changes nothing. */
  lemma {:induction false} WithoutAbsent(s: string, c: char)
    requires c !in s
    ensures Without(s, c) == s
    decreases |s|
  {
    if s != [] {
      assert s[0] != c && c !in s[1..];
      WithoutAbsent(s[1..], c);
    }
  }

  /** Index of the leftmost occurrence of a non-empty `p` in `s`. */
  function Find(s: string, p: string): (r: Option<nat>)
    requires |p| > 0
    ensures r.None? ==> !Contains(s, p)
    ensures r.Some? ==> OccursAt(s, p, r.value)
    ensures r.Some? ==> forall k: nat :: k < r.value ==> !OccursAt(s, p, k)
    decreases |s|
  {
    if |s| < |p| then None
    else if s[..|p|] == p then Some(0)
    else
      var t := Find(s[1..], p);
      assert forall k: nat :: 1 <= k <= |s| ==> (OccursAt(s, p, k) <==> OccursAt(s[1..], p, k - 1)) by {
        forall k: nat | 1 <= k <= |s| ensures OccursAt(s, p, k) <==> OccursAt(s[1..], p, k - 1) {
          OccursInSlice(s, 1, |s|, p, k - 1);
        }
      }
      assert !OccursAt(s, p, 0);
      match t
      case None => None
      case Some(i) => Some(i + 1)
  }

  /** `ps` joined with `sep` between consecutive items (Python's sep.join(ps)). */
  function Join(ps: seq<string>, sep: string): string {
    if |ps| == 0 then "" else if |ps| == 1 then ps[0] else ps[0] + sep + Join(ps[1..], sep)
  }

  /** Python's "".join(ps). */
  function Concat(ps: seq<string>): string {
    if ps == [] then "" else ps[0] + Concat(ps[1..])
  }

  lemma {:induction false} ConcatAppend(a: seq<string>, b: seq<string>)
    ensures Concat(a + b) == Concat(a) + Concat(b)
  {
    if a != [] {
      assert (a + b)[0] == a[0] && (a + b)[1..] == a[1..] + b;
      ConcatAppend(a[1..], b);
      assert Concat(a + b) == a[0] + (Concat(a[1..]) + Concat(b));
    } else {
      assert a + b == b;
    }
  }

  /** Python's s.split(sep) for a non-empty separator: the pieces between the
      leftmost non-overlapping occurrences of `sep`. */
  function SplitOn(s: string, sep: string): (pieces: seq<string>)
    requires |sep| > 0
    ensures |pieces| >= 1
    ensures Join(pieces, sep) == s
    ensures forall k :: 0 <= k < |pieces| ==> !Contains(pieces[k], sep)
    ensures |pieces| == 1 <==> !Contains(s, sep)
    ensures |pieces| > 1 ==> OccursAt(s, sep, |pieces[0]|)
    ensures |pieces| > 1 ==> forall k: nat :: k < |pieces[0]| ==> !OccursAt(s, sep, k)
    decreases |s|
  {
    match Find(s, sep)
    case None => [s]
    case Some(i) =>
      var rest := SplitOn(s[i + |sep|..], sep);
      var head := s[..i];
      assert !Contains(head, sep) by {
        forall k: nat | k <= |head|
          ensures !OccursAt(head, sep, k)
        {
          OccursInSlice(s, 0, i, sep, k);
        }
      }
      assert s == head + sep + s[i + |sep|..];
      [head] + rest
  }

  /** Python's s.split(c) for a one-character separator. */
  function SplitChar(s: string, c: char): seq<string>
    decreases |s|
  {
    var i := SpanOut(s, Among({c}));
    if i == |s| then [s] else [s[..i]] + SplitChar(s[i + 1..], c)
  }

  /** The pieces hold no separator and join back to the text. */
  lemma {:induction false} SplitCharPieces(s: string, c: char)
    ensures |SplitChar(s, c)| >= 1
    ensures forall k :: 0 <= k < |SplitChar(s, c)| ==> c !in SplitChar(s, c)[k]
    ensures Join(SplitChar(s, c), [c]) == s
    decreases |s|
  {
    var i := SpanOut(s, Among({c}));
    SpanOutRun(s, Among({c}));
    var a := s[..i];
    assert c !in a by {
      forall k | 0 <= k < |a| ensures a[k] != c {
        assert a[k] == s[k];
      }
    }
    if i == |s| {
      assert a == s;
      SplitCharWhole(s, c);
    } else {
      var rest := s[i + 1..];
      assert s == a + [c] + rest;
      SplitCharAt(a, c, rest);
      SplitCharPieces(rest, c);
      JoinCons(a, SplitChar(rest, c), [c]);
      var ps := SplitChar(s, c);
      forall k | 0 < k < |ps| ensures c !in ps[k] {
        assert ps[k] == SplitChar(rest, c)[k - 1];
      }
    }
  }

  /** Splitting at a first separator that follows `x`. */
  lemma {:induction false} SplitCharAt(x: string, c: char, y: string)
    requires c !in x
    ensures SplitChar(x + [c] + y, c) == [x] + SplitChar(y, c)
  {
    var s := x + [c] + y;
    forall k | 0 <= k < |x| ensures !In(s[k], Among({c})) {
      assert s[k] == x[k];
    }
    assert s[|x|] == c;
    SpanOutIs(s, Among({c}), |x|);
    assert s[..|x|] == x && s[|x| + 1..] == y;
  }

  /** A text without the separator is one piece. */
  lemma {:induction false} SplitCharWhole(x: string, c: char)
    requires c !in x
    ensures SplitChar(x, c) == [x]
  {
    forall k | 0 <= k < |x| ensures !In(x[k], Among({c})) {
      assert x[k] in x;
    }
    SpanOutIs(x, Among({c}), |x|);
  }

  /** The pieces of a text around any separator are the pieces of its two sides. */
  lemma {:induction false} SplitCharJoin(x: string, c: char, y: string)
    ensures SplitChar(x + [c] + y, c) == SplitChar(x, c) + SplitChar(y, c)
    decreases |x|
  {
    var i := SpanOut(x, Among({c}));
    SpanOutRun(x, Among({c}));
    var a := x[..i];
    assert c !in a by {
      forall k | 0 <= k < |a| ensures a[k] != c {
        assert a[k] == x[k];
      }
    }
    if i == |x| {
      assert a == x;
      SplitCharWhole(x, c);
      SplitCharAt(x, c, y);
    } else {
      var b := x[i + 1..];
      assert x == a + [c] + b;
      assert x + [c] + y == a + [c] + (b + [c] + y);
      SplitCharAt(a, c, b + [c] + y);
      SplitCharJoin(b, c, y);
      SplitCharAt(a, c, b);
    }
  }

  /** Text without the separator in front of `z` joins its first piece. */
  lemma {:induction false} SplitCharPrefix(w: string, z: string, c: char)
    requires c !in w
    ensures |SplitChar(z, c)| >= 1
    ensures SplitChar(w + z, c) == [w + SplitChar(z, c)[0]] + SplitChar(z, c)[1..]
  {
    var i := SpanOut(z, Among({c}));
    SpanOutRun(z, Among({c}));
    var a := z[..i];
    assert c !in a by {
      forall k | 0 <= k < |a| ensures a[k] != c {
        assert a[k] == z[k];
      }
    }
    if i == |z| {
      assert a == z;
      assert c !in w + z;
      SplitCharWhole(z, c);
      SplitCharWhole(w + z, c);
    } else {
      var b := z[i + 1..];
      assert z == a + [c] + b;
      assert w + z == (w + a) + [c] + b;
      assert c !in w + a;
      SplitCharAt(w + a, c, b);
      SplitCharAt(a, c, b);
    }
  }

  /** Text without the separator after `x` joins its last piece. */
  lemma {:induction false} SplitCharExtend(x: string, w: string, c: char)
    requires c !in w
    ensures |SplitChar(x, c)| >= 1
    ensures SplitChar(x + w, c)
         == SplitChar(x, c)[..|SplitChar(x, c)| - 1] + [SplitChar(x, c)[|SplitChar(x, c)| - 1] + w]
    decreases |x|
  {
    var i := SpanOut(x, Among({c}));
    SpanOutRun(x, Among({c}));
    var a := x[..i];
    assert c !in a by {
      forall k | 0 <= k < |a| ensures a[k] != c {
        assert a[k] == x[k];
      }
    }
    if i == |x| {
      assert a == x;
      assert c !in x + w;
      SplitCharWhole(x, c);
      SplitCharWhole(x + w, c);
    } else {
      var b := x[i + 1..];
      assert x == a + [c] + b;
      assert x + w == a + [c] + (b + w);
      SplitCharAt(a, c, b + w);
      SplitCharAt(a, c, b);
      SplitCharExtend(b, w, c);
      var q := SplitChar(b, c);
      assert ([a] + q)[..|q|] == [a] + q[..|q| - 1];
    }
  }

  /** The items of `ps` that hold a visible character, in order. */
  function NonBlank(ps: seq<string>): seq<string>
  {
    if ps == [] then [] else (if AllSpace(ps[0]) then [] else [ps[0]]) + NonBlank(ps[1..])
  }

  lemma {:induction false} NonBlankAppend(a: seq<string>, b: seq<string>)
    ensures NonBlank(a + b) == NonBlank(a) + NonBlank(b)
  {
    if a == [] {
      assert a + b == b;
    } else {
      assert (a + b)[0] == a[0] && (a + b)[1..] == a[1..] + b;
      NonBlankAppend(a[1..], b);
    }
  }

  /** The filter keeps the visible items in their order, each as often as
      it occurs, and drops every blank one. */
  lemma {:induction false} NonBlankKeeps(ps: seq<string>)
    ensures IsSubseq(NonBlank(ps), ps)
    ensures forall x :: multiset(NonBlank(ps))[x] == if AllSpace(x) then 0 else multiset(ps)[x]
  {
    if ps != [] {
      NonBlankKeeps(ps[1..]);
      assert ps == [ps[0]] + ps[1..];
      if !AllSpace(ps[0]) {
        assert NonBlank(ps)[1..] == NonBlank(ps[1..]);
      } else {
        assert NonBlank(ps) == NonBlank(ps[1..]);
      }
    }
  }

  /** Stripping works item by item. */
  lemma {:induction false} StripEachAppend(a: seq<string>, b: seq<string>)
    ensures StripEach(a + b) == StripEach(a) + StripEach(b)
  {
    if a == [] {
      assert a + b == b;
    } else {
      assert (a + b)[0] == a[0] && (a + b)[1..] == a[1..] + b;
      StripEachAppend(a[1..], b);
    }
  }

  lemma {:induction false} AllInSlice(s: string, i: nat, j: nat, cs: CharClass)
    requires AllIn(s, cs) && i <= j <= |s|
    ensures AllIn(s[i..j], cs)
  {
    forall k | 0 <= k < j - i ensures In(s[i..j][k], cs) {
      assert s[i..j][k] == s[i + k];
    }
  }

  /** A leading run of `cs` is skipped whole. */
  lemma {:induction false} SpanInSkip(w: string, x: string, cs: CharClass)
    requires AllIn(w, cs)
    ensures SpanIn(w + x, cs) == |w| + SpanIn(x, cs)
    decreases |w|
  {
    if w == [] {
      assert w + x == x;
    } else {
      assert (w + x)[0] == w[0] && (w + x)[1..] == w[1..] + x;
      AllInSlice(w, 1, |w|, cs);
      SpanInSkip(w[1..], x, cs);
    }
  }

  /** A trailing run of `cs` is cut off whole. */
  lemma {:induction false} KeepRightSkip(y: string, w: string, cs: CharClass)
    requires AllIn(w, cs)
    ensures KeepRight(y + w, cs) == KeepRight(y, cs)
    decreases |w|
  {
    if w == [] {
      assert y + w == y;
    } else {
      var s := y + w;
      assert s[|s| - 1] == w[|w| - 1];
      assert s[..|s| - 1] == y + w[..|w| - 1];
      AllInSlice(w, 0, |w| - 1, cs);
      KeepRightSkip(y, w[..|w| - 1], cs);
    }
  }

  /** Whitespace added in front changes nothing under strip(). */
  lemma {:induction false} StripLeadingSpaces(w: string, x: string)
    requires AllSpace(w)
    ensures Strip(w + x, Spaces) == Strip(x, Spaces)
  {
    SpanInSkip(w, x, Spaces);
    assert LStrip(w + x, Spaces) == LStrip(x, Spaces);
  }

  /** Whitespace added behind changes nothing under strip(). */
  lemma {:induction false} StripTrailingSpaces(x: string, w: string)
    requires AllSpace(w)
    ensures Strip(x + w, Spaces) == Strip(x, Spaces)
  {
    var i := SpanIn(x, Spaces);
    SpanInRun(x, Spaces);
    if i == |x| {
      SpanInSkip(x, w, Spaces);
      assert SpanIn(w, Spaces) == |w| by {
        SpanInSkip(w, [], Spaces);
        assert w + [] == w;
      }
      assert LStrip(x + w, Spaces) == [] == LStrip(x, Spaces);
    } else {
      var s := x + w;
      forall k | 0 <= k < i ensures In(s[k], Spaces) {
        assert s[k] == x[k];
      }
      assert s[i] == x[i];
      SpanInIs(s, Spaces, i);
      assert LStrip(s, Spaces) == x[i..] + w;
      KeepRightSkip(x[i..], w, Spaces);
      var n := KeepRight(x[i..], Spaces);
      assert (x[i..] + w)[..n] == x[i..][..n];
    }
  }

  /** Python's s.count(sep): leftmost non-overlapping occurrences, scanned
      one character at a time. */
  function Occurrences(s: string, sep: string): nat
    requires |sep| > 0
    decreases |s|
  {
    if |s| < |sep| then 0
    else if s[..|sep|] == sep then 1 + Occurrences(s[|sep|..], sep)
    else Occurrences(s[1..], sep)
  }

  lemma {:induction false} OccurrencesSkip(s: string, sep: string, i: nat)
    requires |sep| > 0 && i <= |s|
    requires forall k: nat :: k < i ==> !OccursAt(s, sep, k)
    ensures Occurrences(s, sep) == Occurrences(s[i..], sep)
    decreases i
  {
    if i > 0 {
      if |s| < |sep| {
        assert |s[i..]| < |sep|;
      } else {
        assert !OccursAt(s, sep, 0);
        forall k: nat | k < i - 1 ensures !OccursAt(s[1..], sep, k) {
          OccursInSlice(s, 1, |s|, sep, k);
        }
        OccurrencesSkip(s[1..], sep, i - 1);
        assert s[1..][i - 1..] == s[i..];
      }
    }
  }

  /** str.split yields one more piece than str.count finds separators. */
  lemma {:induction false} SplitOnCount(s: string, sep: string)
    requires |sep| > 0
    ensures |SplitOn(s, sep)| == Occurrences(s, sep) + 1
    decreases |s|
  {
    match Find(s, sep)
    case None =>
      assert forall k: nat :: k < |s| ==> !OccursAt(s, sep, k);
      OccurrencesSkip(s, sep, |s|);
      assert s[|s|..] == "";
    case Some(i) =>
      OccurrencesSkip(s, sep, i);
      var t := s[i..];
      assert t[..|sep|] == sep;
      assert t[|sep|..] == s[i + |sep|..];
      SplitOnCount(s[i + |sep|..], sep);
  }

  predicate NoLineBreak(s: string) {
    forall k :: 0 <= k < |s| ==> !IsLineBreak(s[k])
  }

  /** The only line boundary in `s`, if any, is '\n'. */
  predicate OnlyNewlines(s: string) {
    forall k :: 0 <= k < |s| ==> IsLineBreak(s[k]) ==> s[k] == '\n'
  }

  /** Width of the line boundary at `s[i]`: 2 for "\r\n", else 1. */
  function BreakWidth(s: string, i: nat): nat
    requires i < |s|
  {
    if s[i] == '\r' && i + 1 < |s| && s[i + 1] == '\n' then 2 else 1
  }

  /** Python's s.splitlines(): the lines without their boundaries, and no
      extra empty line after a final boundary. */
  function SplitLines(s: string): (lines: seq<string>)
    ensures forall k :: 0 <= k < |lines| ==> NoLineBreak(lines[k])
    ensures s == [] <==> lines == []
    decreases |s|
  {
    if s == [] then []
    else
      var i := SpanOut(s, Breaks);
      SpanOutRun(s, Breaks);
      if i == |s| then [s]
      else [s[..i]] + SplitLines(s[i + BreakWidth(s, i)..])
  }

  /** The lines of a text after its first boundary. */
  lemma {:induction false} SplitLinesStep(s: string)
    requires SpanOut(s, Breaks) < |s|
    ensures var i := SpanOut(s, Breaks);
      SplitLines(s) == [s[..i]] + SplitLines(s[i + BreakWidth(s, i)..])
  {
  }

  /** A string absent from a text is absent from each of its lines. */
  lemma {:induction false} LinesAvoid(s: string, p: string)
    requires !Contains(s, p)
    ensures forall k :: 0 <= k < |SplitLines(s)| ==> !Contains(SplitLines(s)[k], p)
    decreases |s|
  {
    var i := SpanOut(s, Breaks);
    if i == |s| {
      assert s != [] ==> SplitLines(s) == [s];
    } else {
      var j := i + BreakWidth(s, i);
      SplitLinesStep(s);
      NotContainsSlice(s, 0, i, p);
      assert s[0..i] == s[..i];
      NotContainsSlice(s, j, |s|, p);
      assert s[j..|s|] == s[j..];
      LinesAvoid(s[j..], p);
    }
  }

  lemma {:induction false} JoinCons(x: string, t: seq<string>, sep: string)
    requires t != []
    ensures Join([x] + t, sep) == x + sep + Join(t, sep)
  {
    assert ([x] + t)[1..] == t;
  }

  /** Items joined by '\n' hold no `p` that none of them holds, when `p`
      has no '\n' of its own. */
  lemma {:induction false} JoinAvoids(ps: seq<string>, p: string)
    requires |p| > 0 && '\n' !in p
    requires forall k :: 0 <= k < |ps| ==> !Contains(ps[k], p)
    ensures !Contains(Join(ps, "\n"), p)
    decreases |ps|
  {
    if |ps| > 1 {
      var x, y := ps[0], Join(ps[1..], "\n");
      forall k | 0 <= k < |ps| - 1 ensures !Contains(ps[1..][k], p) {
        assert ps[1..][k] == ps[k + 1];
      }
      JoinAvoids(ps[1..], p);
      var s := x + "\n" + y;
      assert s[..|x|] == x && s[|x| + 1..] == y && s[|x|] == '\n';
      forall i: nat | i <= |s| ensures !OccursAt(s, p, i) {
        if i + |p| <= |x| {
          OccursInSlice(s, 0, |x|, p, i);
          assert s[0..|x|] == x;
          assert OccursAt(x, p, i) ==> Contains(x, p);
        } else if i > |x| {
          OccursInSlice(s, |x| + 1, |s|, p, i - |x| - 1);
          assert OccursAt(y, p, i - |x| - 1) ==> Contains(y, p);
        } else if i + |p| <= |s| {
          assert s[i..i + |p|][|x| - i] == '\n';
        }
      }
    }
  }

  /** Every character of an item is in the joined text. */
  lemma {:induction false} JoinHasItem(ps: seq<string>, sep: string, k: nat)
    requires k < |ps|
    ensures forall c :: c in ps[k] ==> c in Join(ps, sep)
    decreases |ps|
  {
    if |ps| > 1 {
      assert Join(ps, sep) == ps[0] + sep + Join(ps[1..], sep);
      if k > 0 {
        JoinHasItem(ps[1..], sep, k - 1);
        assert ps[1..][k - 1] == ps[k];
      }
    }
  }

  /** Every character of the joined text comes from an item or from the
      separator. */
  lemma {:induction false} JoinFromItems(ps: seq<string>, sep: string, c: char)
    requires c in Join(ps, sep)
    ensures c in sep || exists k :: 0 <= k < |ps| && c in ps[k]
    decreases |ps|
  {
    if |ps| == 1 {
      assert c in ps[0];
    } else if |ps| > 1 {
      assert Join(ps, sep) == ps[0] + sep + Join(ps[1..], sep);
      if c !in ps[0] && c !in sep {
        JoinFromItems(ps[1..], sep, c);
        var k :| 0 <= k < |ps| - 1 && c in ps[1..][k];
        assert ps[1..][k] == ps[k + 1];
      }
    }
  }

  /** The first line of text whose first boundary is a '\n' at `i`. */
  lemma {:induction false} SplitLinesFirst(s: string)
    requires OnlyNewlines(s) && SpanOut(s, Breaks) < |s|
    ensures var i := SpanOut(s, Breaks);
      s[i] == '\n' && SplitLines(s) == [s[..i]] + SplitLines(s[i + 1..])
  {
    var i := SpanOut(s, Breaks);
    SpanOutRun(s, Breaks);
    assert s[i] == '\n';
    assert BreakWidth(s, i) == 1;
  }

  /** Text with no boundary is one line. */
  lemma {:induction false} SplitLinesSingle(s: string)
    requires s != [] && SpanOut(s, Breaks) == |s|
    ensures SplitLines(s) == [s] && !IsLineBreak(s[|s| - 1])
  {
    SpanOutRun(s, Breaks);
  }

  lemma {:induction false} OnlyNewlinesSuffix(s: string, j: nat)
    requires OnlyNewlines(s) && j <= |s|
    ensures OnlyNewlines(s[j..])
  {
    forall k | 0 <= k < |s| - j ensures IsLineBreak(s[j..][k]) ==> s[j..][k] == '\n' {
      assert s[j..][k] == s[j + k];
    }
  }

  /** The text without its final '\n', if it ends with one. */
  function DropFinalNewline(s: string): string {
    if s != [] && s[|s| - 1] == '\n' then s[..|s| - 1] else s
  }

  /** Joining one more line in front of lines that join to `rest`. */
  lemma {:induction false} JoinFirstLine(head: string, tail: seq<string>, rest: string)
    requires tail != [] && rest != [] && Join(tail, "\n") == DropFinalNewline(rest)
    ensures Join([head] + tail, "\n") == DropFinalNewline(head + "\n" + rest)
  {
    JoinCons(head, tail, "\n");
    var s := head + "\n" + rest;
    assert s[|s| - 1] == rest[|rest| - 1];
    if rest[|rest| - 1] == '\n' {
      assert s[..|s| - 1] == head + "\n" + rest[..|rest| - 1];
    }
  }

  /** For text whose only line boundary is '\n', "\n".join(s.splitlines())
      gives back the text without a final newline. */
  lemma {:induction false} SplitLinesJoin(s: string)
    requires OnlyNewlines(s)
    ensures Join(SplitLines(s), "\n") == DropFinalNewline(s)
    decreases |s|
  {
    if s != [] {
      var i := SpanOut(s, Breaks);
      if i < |s| {
        SplitLinesFirst(s);
        var head, rest := s[..i], s[i + 1..];
        OnlyNewlinesSuffix(s, i + 1);
        SplitLinesJoin(rest);
        assert s == head + "\n" + rest;
        if rest == [] {
          assert SplitLines(s) == [head];
          assert s[..|s| - 1] == head;
        } else {
          JoinFirstLine(head, SplitLines(rest), rest);
        }
      } else {
        SplitLinesSingle(s);
      }
    }
  }

  /** `a` is obtained from `b` by deleting elements. */
  predicate IsSubseq<T(==)>(a: seq<T>, b: seq<T>)
    decreases |b|
  {
    a == [] || (b != [] && ((a[0] == b[0] && IsSubseq(a[1..], b[1..])) || IsSubseq(a, b[1..])))
  }

  lemma {:induction false} SubseqRefl<T>(a: seq<T>)
    ensures IsSubseq(a, a)
    decreases |a|
  {
    if a != [] {
      SubseqRefl(a[1..]);
    }
  }

  lemma {:induction false} SubseqTrans<T>(a: seq<T>, b: seq<T>, c: seq<T>)
    requires IsSubseq(a, b) && IsSubseq(b, c)
    ensures IsSubseq(a, c)
    decreases |c|
  {
    if a != [] {
      assert b != [] && c != [];
      if IsSubseq(b, c[1..]) {
        SubseqTrans(a, b, c[1..]);
      } else {
        assert b[0] == c[0] && IsSubseq(b[1..], c[1..]);
        if a[0] == b[0] && IsSubseq(a[1..], b[1..]) {
          SubseqTrans(a[1..], b[1..], c[1..]);
        } else {
          SubseqTrans(a, b[1..], c[1..]);
        }
      }
    }
  }

  /** A subsequence is never longer and holds nothing the original lacks. */
  lemma {:induction false} SubseqMembers<T>(a: seq<T>, b: seq<T>)
    requires IsSubseq(a, b)
    ensures |a| <= |b|
    ensures forall x :: x in a ==> x in b
    decreases |b|
  {
    if a != [] {
      if IsSubseq(a, b[1..]) {
        SubseqMembers(a, b[1..]);
      } else {
        SubseqMembers(a[1..], b[1..]);
        assert a == [b[0]] + a[1..] && b == [b[0]] + b[1..];
      }
    }
  }

  /** A subsequence of `b` is a subsequence of any longer string ending with `b`. */
  lemma {:induction false} SubseqOfSuffix<T>(a: seq<T>, b: seq<T>, n: nat)
    requires n <= |b| && IsSubseq(a, b[n..])
    ensures IsSubseq(a, b)
    decreases n
  {
    if n > 0 {
      assert b[1..][n - 1..] == b[n..];
      SubseqOfSuffix(a, b[1..], n - 1);
    }
  }

  /** Each string of `ps` stripped of surrounding whitespace. */
  function StripEach(ps: seq<string>): (r: seq<string>)
    ensures |r| == |ps|
  {
    if ps == [] then [] else [Strip(ps[0], Spaces)] + StripEach(ps[1..])
  }

  /** Item `k` of the result is item `k` of `ps`, stripped. */
  lemma {:induction false} StripEachAt(ps: seq<string>)
    ensures forall k :: 0 <= k < |ps| ==> StripEach(ps)[k] == Strip(ps[k], Spaces)
  {
    if ps != [] {
      StripEachAt(ps[1..]);
    }
  }
}

/** Python's ordering of str values (lexicographic by code point) and
    sorted(set(xs)). */
module StringOrder {
  import opened Text

  /** Python's a < b on str. */
  predicate Below(a: string, b: string)
    decreases |a|
  {
    if a == [] then b != []
    else if b == [] then false
    else if a[0] != b[0] then a[0] < b[0]
    else Below(a[1..], b[1..])
  }

  lemma {:induction false} BelowIrreflexive(a: string)
    ensures !Below(a, a)
    decreases |a|
  {
    if a != [] {
      BelowIrreflexive(a[1..]);
    }
  }

  lemma {:induction false} BelowTrans(a: string, b: string, c: string)
    requires Below(a, b) && Below(b, c)
    ensures Below(a, c)
    decreases |a|
  {
    if a != [] && a[0] == b[0] && b[0] == c[0] {
      BelowTrans(a[1..], b[1..], c[1..]);
    }
  }

  lemma {:induction false} BelowTotal(a: string, b: string)
    ensures a == b || Below(a, b) || Below(b, a)
    decreases |a|
  {
    if a != [] && b != [] && a[0] == b[0] {
      BelowTotal(a[1..], b[1..]);
      if a[1..] == b[1..] {
        assert a == [a[0]] + a[1..] && b == [b[0]] + b[1..];
      }
    }
  }

  predicate StrictlyAscending(s: seq<string>) {
    forall i, j :: 0 <= i < j < |s| ==> Below(s[i], s[j])
  }

  /** `x` put in its place in an ascending list, unless already there. */
  function Insert(x: string, s: seq<string>): (r: seq<string>)
    requires StrictlyAscending(s)
    ensures StrictlyAscending(r)
    ensures forall y :: y in r <==> y == x || y in s
  {
    if s == [] then [x]
    else if x == s[0] then s
    else if Below(x, s[0]) then
      assert forall j :: 0 <= j < |s| ==> Below(x, s[j]) by {
        forall j | 0 < j < |s| ensures Below(x, s[j]) {
          BelowTrans(x, s[0], s[j]);
        }
      }
      [x] + s
    else
      var rest := Insert(x, s[1..]);
      BelowTotal(x, s[0]);
      assert forall y :: y in rest ==> Below(s[0], y) by {
        forall y | y in rest ensures Below(s[0], y) {
          if y != x {
            var j :| 0 <= j < |s[1..]| && s[1..][j] == y;
            assert s[j + 1] == y;
          }
        }
      }
      var r := [s[0]] + rest;
      assert forall i, j :: 0 <= i < j < |r| ==> Below(r[i], r[j]) by {
        forall i, j | 0 <= i < j < |r| ensures Below(r[i], r[j]) {
          if i == 0 {
            assert r[j] == rest[j - 1] && rest[j - 1] in rest;
          } else {
            assert r[i] == rest[i - 1] && r[j] == rest[j - 1];
          }
        }
      }
      r
  }

  /** Python's sorted(set(xs)): the distinct items of `xs` in ascending order. */
  function SortedSet(xs: seq<string>): (r: seq<string>)
    ensures StrictlyAscending(r)
    ensures forall y :: y in r <==> y in xs
  {
    if xs == [] then [] else Insert(xs[|xs| - 1], SortedSet(xs[..|xs| - 1]))
  }
}
