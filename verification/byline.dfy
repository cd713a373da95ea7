/** preprocess/author.py: find the block of source/author/editor lines at the
    end of an article and rewrite it as a Markdown quote under a rule. */
module Byline {
  import opened Text
  import opened MetadataLine

  /** The kind of every line, in order. */
  function Kinds(lines: seq<string>): (kinds: seq<LineKind>)
    ensures |kinds| == |lines|
  {
    if lines == [] then [] else [KindOf(lines[0])] + Kinds(lines[1..])
  }

  /** `kinds` gives the kind of every line. */
  predicate KindsOf(kinds: seq<LineKind>, lines: seq<string>) {
    |kinds| == |lines| &&
    forall k {:trigger KindOf(lines[k])} :: 0 <= k < |lines| ==> kinds[k] == KindOf(lines[k])
  }

  lemma {:induction false} KindsAreKindsOf(lines: seq<string>)
    ensures KindsOf(Kinds(lines), lines)
  {
    if lines != [] {
      KindsAreKindsOf(lines[1..]);
      forall k | 0 < k < |lines| ensures Kinds(lines)[k] == KindOf(lines[k]) {
        assert lines[1..][k - 1] == lines[k];
      }
    }
  }

  /** Only blank lines from `j` on. */
  predicate BlankFrom(kinds: seq<LineKind>, j: nat) {
    forall k :: j <= k < |kinds| ==> kinds[k] == BlankLine
  }

  /** Index of the last visible line, if any. */
  function LastVisible(kinds: seq<LineKind>): (r: Option<nat>)
    ensures r.None? ==> BlankFrom(kinds, 0)
    ensures r.Some? ==> r.value < |kinds| && kinds[r.value] != BlankLine && BlankFrom(kinds, r.value + 1)
  {
    if kinds == [] then None
    else if kinds[|kinds| - 1] != BlankLine then Some(|kinds| - 1)
    else LastVisible(kinds[..|kinds| - 1])
  }

  /** The last visible line is the one with only blank lines below it. */
  lemma {:induction false} LastVisibleIs(kinds: seq<LineKind>, e: nat)
    requires e < |kinds| && kinds[e] != BlankLine && BlankFrom(kinds, e + 1)
    ensures LastVisible(kinds) == Some(e)
    decreases |kinds|
  {
    if e < |kinds| - 1 {
      LastVisibleIs(kinds[..|kinds| - 1], e);
    }
  }

  /** Lines `s` to `e` hold only metadata and blank lines, and line `e` is
      the last visible line (so it is metadata). */
  predicate TrailingBlock(kinds: seq<LineKind>, s: nat, e: nat) {
    s <= e < |kinds| && LastVisible(kinds) == Some(e) &&
    forall k :: s <= k <= e ==> kinds[k] != TextLine
  }

  /** The trailing block, extended upwards as far as it goes: the line above
      it, if any, is text. */
  predicate MaximalBlock(kinds: seq<LineKind>, s: nat, e: nat) {
    TrailingBlock(kinds, s, e) && (s == 0 || kinds[s - 1] == TextLine)
  }

  /** The last visible line, if there is one, is text. */
  predicate NoBlock(kinds: seq<LineKind>) {
    LastVisible(kinds).None? || kinds[LastVisible(kinds).value] == TextLine
  }

  /** The last line of a trailing block is a metadata line. */
  lemma {:induction false} BlockEndsWithMetadata(kinds: seq<LineKind>, s: nat, e: nat)
    requires TrailingBlock(kinds, s, e)
    ensures kinds[e] == MetaLine
  {
  }

  /** Without a block there is no trailing block at all. */
  lemma {:induction false} NoBlockExcludesBlock(kinds: seq<LineKind>, s: nat, e: nat)
    requires NoBlock(kinds)
    ensures !TrailingBlock(kinds, s, e)
  {
  }

  /** There is at most one maximal trailing block. */
  lemma {:induction false} BlockUnique(kinds: seq<LineKind>, s: nat, e: nat, s': nat, e': nat)
    requires MaximalBlock(kinds, s, e) && MaximalBlock(kinds, s', e')
    ensures s == s' && e == e'
  {
  }

  /** The quoted block: one line per visible line, blank lines dropped. */
  function Quoted(lines: seq<string>): (r: seq<string>)
    ensures |r| <= |lines|
  {
    if lines == [] then []
    else if Blank(lines[0]) then Quoted(lines[1..])
    else [QuoteLine(lines[0])] + Quoted(lines[1..])
  }

  /** Quoting works line by line. */
  lemma {:induction false} QuotedAppend(a: seq<string>, b: seq<string>)
    ensures Quoted(a + b) == Quoted(a) + Quoted(b)
  {
    if a == [] {
      assert a + b == b;
    } else {
      assert (a + b)[0] == a[0] && (a + b)[1..] == a[1..] + b;
      QuotedAppend(a[1..], b);
    }
  }

  /** Putting a line in front of both keeps line `i` of a quote the quoted
      line `i`. */
  lemma {:induction false} QuotedCons(q: seq<string>, v: seq<string>, x: string)
    requires |q| == |v| && forall i :: 0 <= i < |q| ==> q[i] == QuoteLine(v[i])
    ensures var q', v' := [QuoteLine(x)] + q, [x] + v;
      |q'| == |v'| && forall i :: 0 <= i < |q'| ==> q'[i] == QuoteLine(v'[i])
  {
    var q', v' := [QuoteLine(x)] + q, [x] + v;
    forall i | 1 <= i < |q'| ensures q'[i] == QuoteLine(v'[i]) {
      assert q'[i] == q[i - 1] && v'[i] == v[i - 1];
    }
  }

  /** Line `i` of the quote is the `i`-th visible line, quoted. */
  lemma {:induction false} QuotedInOrder(lines: seq<string>)
    ensures |Quoted(lines)| == |NonBlank(lines)|
    ensures forall i :: 0 <= i < |Quoted(lines)| ==> Quoted(lines)[i] == QuoteLine(NonBlank(lines)[i])
  {
    if lines != [] {
      QuotedInOrder(lines[1..]);
      var q := Quoted(lines[1..]);
      var v := NonBlank(lines[1..]);
      if Blank(lines[0]) {
        assert Quoted(lines) == q && NonBlank(lines) == v;
      } else {
        assert Quoted(lines) == [QuoteLine(lines[0])] + q;
        assert NonBlank(lines) == [lines[0]] + v;
        QuotedCons(q, v, lines[0]);
      }
    }
  }

  /** Every visible line gives one quoted line, in order; blank lines give none. */
  lemma {:induction false} QuotedMatchesVisible(lines: seq<string>)
    ensures |Quoted(lines)| == |NonBlank(lines)|
    ensures forall i :: 0 <= i < |Quoted(lines)| ==> Quoted(lines)[i] == QuoteLine(NonBlank(lines)[i])
    ensures forall k :: 0 <= k < |lines| && !Blank(lines[k]) ==> QuoteLine(lines[k]) in Quoted(lines)
  {
    QuotedInOrder(lines);
    NonBlankKeeps(lines);
    var v := NonBlank(lines);
    forall k | 0 <= k < |lines| && !Blank(lines[k]) ensures QuoteLine(lines[k]) in Quoted(lines) {
      assert lines[k] in multiset(lines);
      assert lines[k] in multiset(v);
      var i :| 0 <= i < |v| && v[i] == lines[k];
      assert Quoted(lines)[i] == QuoteLine(lines[k]);
    }
  }

  /** The blank lines after the last visible one add nothing to the quote. */
  lemma {:induction false} QuotedIgnoresBlankTail(lines: seq<string>, n: nat)
    requires n <= |lines| && forall k :: n <= k < |lines| ==> Blank(lines[k])
    ensures Quoted(lines) == Quoted(lines[..n])
    decreases |lines|
  {
    if lines != [] {
      var rest := lines[1..];
      var m := if n == 0 then 0 else n - 1;
      forall k | m <= k < |rest| ensures Blank(rest[k]) {
        assert rest[k] == lines[k + 1];
      }
      QuotedIgnoresBlankTail(rest, m);
      if n == 0 {
        assert rest[..0] == [] && lines[..0] == [];
      } else {
        assert lines[..n][0] == lines[0] && lines[..n][1..] == rest[..m];
      }
    }
  }

  /** The body before the block, with its trailing whitespace removed. */
  function Body(lines: seq<string>, s: nat): string
    requires s <= |lines|
  {
    RStrip(Concat(lines[..s]), Spaces)
  }

  /** The rewritten article when the block starts at line `s`. */
  function Reassembled(lines: seq<string>, s: nat): string
    requires s <= |lines|
  {
    Body(lines, s) + "\n\n---" + Concat(Quoted(lines[s..]))
  }

  /** The body keeps the original text up to the block, dropping only trailing
      whitespace: original == body + whitespace + block lines. */
  lemma {:induction false} BodyKept(lines: seq<string>, s: nat)
    requires s <= |lines|
    ensures exists w :: AllSpace(w) && Concat(lines) == Body(lines, s) + w + Concat(lines[s..])
  {
    var t := Concat(lines[..s]);
    assert lines == lines[..s] + lines[s..];
    ConcatAppend(lines[..s], lines[s..]);
    RStripSplit(t, Spaces);
    var w := t[KeepRight(t, Spaces)..];
    assert AllSpace(w);
  }

  /** The test of ClassifyLine applied to line `j`, stated through its kind. */
  method ClassifyAt(lines: seq<string>, j: nat, ghost kinds: seq<LineKind>) returns (lineContent: string, isMetadata: bool)
    requires KindsOf(kinds, lines) && j < |lines|
    ensures isMetadata <==> kinds[j] == MetaLine
    ensures !isMetadata ==> (lineContent == [] <==> kinds[j] == BlankLine)
  {
    lineContent, isMetadata := ClassifyLine(lines[j]);
  }

  /** The backward scan of the per-file rewrite: the indices of the
      trailing block, found from the last line upwards. `kinds` names the
      kind of every line for the contract only. */
  method TrailingBlockIndices(lines: seq<string>, ghost kinds: seq<LineKind>) returns (indices: seq<nat>)
    requires KindsOf(kinds, lines)
    ensures indices == [] ==> NoBlock(kinds)
    ensures indices != [] ==> MaximalBlock(kinds, indices[0], indices[|indices| - 1])
    ensures forall k :: 0 <= k < |indices| ==> indices[k] == indices[0] + k
  {
    indices := [];
    var j: nat := |lines|;
    while j > 0
      invariant j <= |lines|
      invariant forall k :: 0 <= k < |indices| ==> indices[k] == j + k
      invariant indices == [] ==> BlankFrom(kinds, j)
      invariant indices != [] ==> TrailingBlock(kinds, j, indices[|indices| - 1])
    {
      j := j - 1;
      var lineContent, isMetadata := ClassifyAt(lines, j, kinds);
      if isMetadata {
        if indices == [] {
          LastVisibleIs(kinds, j);
        }
        indices := [j] + indices;
      } else if lineContent != [] && indices == [] {
        LastVisibleIs(kinds, j);
        break;
      } else if lineContent == [] && indices != [] {
        indices := [j] + indices;
      } else if lineContent != [] && indices != [] {
        break;
      }
    }
  }

  /** The per-file rewrite: the scan, then the body with its trailing
      whitespace removed, the rule, and the quoted block. */
  method FormatMetadata(lines: seq<string>) returns (indices: seq<nat>, content: string)
    ensures indices == [] ==> NoBlock(Kinds(lines)) && content == Concat(lines)
    ensures indices != [] ==> MaximalBlock(Kinds(lines), indices[0], indices[|indices| - 1])
    ensures forall k :: 0 <= k < |indices| ==> indices[k] == indices[0] + k
    ensures indices != [] ==> content == Reassembled(lines, indices[0])
  {
    KindsAreKindsOf(lines);
    indices := TrailingBlockIndices(lines, Kinds(lines));
    if indices != [] {
      var firstMetaIndex := indices[0];
      var contentLines := lines[..firstMetaIndex];
      var metadataLines := lines[firstMetaIndex..];
      var formattedMetadata := Quoted(metadataLines);
      content := RStrip(Concat(contentLines), Spaces) + "\n\n---" + Concat(formattedMetadata);
    } else {
      content := Concat(lines);
    }
  }
}
