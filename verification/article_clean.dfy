/** preprocess/clean.py's clean_content: remove the first Setext title and
    the first '# ' title, drop a leading cover-image line and every line
    mentioning 阅读原文, delete the promotional phrases and the characters
    '*', '〓' and '▼', collapse blank-line runs, and strip the ends. */
module ArticleCleaner {
  import opened Text
  import opened Patterns

  // ---------------------------------------------------------------- titles

  /** The two title patterns, each anchored at a line start and removed at
      its first match only. */
  datatype Heading =
      /** `^(.+)\n=+\n+`: a text line underlined with '='. */
    | Setext
      /** `^# .+\n+`: a line opening with "# ". */
    | Atx

  /** A line start: the beginning of the text or just after a '\n'. */
  predicate LineStart(s: string, p: nat) {
    p == 0 || (p <= |s| && s[p - 1] == '\n')
  }

  /** `^(.+)\n=+\n+` at the start of `t`: `.` stops only at '\n', so `.+`
      runs to the end of its line; `=+` and `\n+` are greedy, so each run is
      maximal. */
  function SetextLength(t: string): Option<nat> {
    var e := SpanOut(t, Among({'\n'}));
    if e == 0 || e == |t| then None
    else
      var u := e + 1 + SpanIn(t[e + 1..], Among({'='}));
      if u == e + 1 || u == |t| || t[u] != '\n' then None
      else Some(u + SpanIn(t[u..], Among({'\n'})))
  }

  /** `^# .+\n+` at the start of `t`. */
  function AtxLength(t: string): Option<nat> {
    if !StartsWith(t, "# ") then None
    else
      var e := 2 + SpanOut(t[2..], Among({'\n'}));
      if e == 2 || e == |t| then None
      else Some(e + SpanIn(t[e..], Among({'\n'})))
  }

  /** Length of the title match at the start of `t`, if any. */
  function HeadingLength(h: Heading, t: string): (r: Option<nat>)
    ensures r.Some? ==> 0 < r.value <= |t|
  {
    match h
    case Setext => SetextLength(t)
    case Atx => AtxLength(t)
  }

  /** `t[..n]` is a Setext title: a non-empty line ending at the '\n' at `e`,
      a run of '=' up to `u`, then every '\n' up to `n`. */
  predicate SetextShape(t: string, e: nat, u: nat, n: nat) {
    0 < e && e + 1 < u < n <= |t| &&
    (forall k :: 0 <= k < e ==> t[k] != '\n') && t[e] == '\n' &&
    (forall k :: e < k < u ==> t[k] == '=') &&
    (forall k :: u <= k < n ==> t[k] == '\n') && (n < |t| ==> t[n] != '\n')
  }

  /** `t[..n]` is an ATX title: "# ", a non-empty rest of the line ending at
      `e`, then every '\n' up to `n`. */
  predicate AtxShape(t: string, e: nat, n: nat) {
    StartsWith(t, "# ") && 2 < e < n <= |t| &&
    (forall k :: 2 <= k < e ==> t[k] != '\n') &&
    (forall k :: e <= k < n ==> t[k] == '\n') && (n < |t| ==> t[n] != '\n')
  }

  /** A Setext match has the Setext shape, with the match's length. */
  lemma {:induction false} SetextMatchHasShape(t: string, n: nat)
    requires HeadingLength(Setext, t) == Some(n)
    ensures exists e, u :: SetextShape(t, e, u, n)
  {
    var nl, eq := Among({'\n'}), Among({'='});
    var e := SpanOut(t, nl);
    var u := e + 1 + SpanIn(t[e + 1..], eq);
    assert 0 < e < |t| && e + 1 < u < |t| && t[u] == '\n';
    assert n == u + SpanIn(t[u..], nl);
    SpanOutRun(t, nl);
    SpanInRun(t[e + 1..], eq);
    SpanInRun(t[u..], nl);
    forall k | 0 <= k < e ensures t[k] != '\n' {
      assert !In(t[k], nl);
    }
    forall k | e < k < u ensures t[k] == '=' {
      assert t[k] == t[e + 1..][k - e - 1];
    }
    forall k | u <= k < n ensures t[k] == '\n' {
      assert t[k] == t[u..][k - u];
    }
    if n < |t| {
      assert t[n] == t[u..][n - u];
    }
    assert SetextShape(t, e, u, n);
  }

  /** A text that opens with a Setext title is matched, for the whole title. */
  lemma {:induction false} SetextShapeMatches(t: string, e: nat, u: nat, n: nat)
    requires SetextShape(t, e, u, n)
    ensures HeadingLength(Setext, t) == Some(n)
  {
    var nl, eq := Among({'\n'}), Among({'='});
    SpanOutIs(t, nl, e);
    SpanInIs(t[e + 1..], eq, u - e - 1);
    SpanInIs(t[u..], nl, n - u);
  }

  /** An ATX match has the ATX shape, with the match's length. */
  lemma {:induction false} AtxMatchHasShape(t: string, n: nat)
    requires HeadingLength(Atx, t) == Some(n)
    ensures exists e :: AtxShape(t, e, n)
  {
    var nl := Among({'\n'});
    var e := 2 + SpanOut(t[2..], nl);
    SpanOutRun(t[2..], nl);
    SpanInRun(t[e..], nl);
    assert AtxShape(t, e, n);
  }

  /** A text that opens with an ATX title is matched, for the whole title. */
  lemma {:induction false} AtxShapeMatches(t: string, e: nat, n: nat)
    requires AtxShape(t, e, n)
    ensures HeadingLength(Atx, t) == Some(n)
  {
    var nl := Among({'\n'});
    SpanOutIs(t[2..], nl, e - 2);
    SpanInIs(t[e..], nl, n - e);
  }

  /** The first match of title pattern `h` at a line start from `p` on:
      its start and its length. */
  function FindHeading(h: Heading, s: string, p: nat): (r: Option<(nat, nat)>)
    requires p <= |s| && LineStart(s, p)
    ensures r.Some? ==> (p <= r.value.0 <= |s| && LineStart(s, r.value.0) &&
      HeadingLength(h, s[r.value.0..]) == Some(r.value.1))
    ensures forall q :: p <= q <= |s| && LineStart(s, q) && (r.None? || q < r.value.0) ==>
      HeadingLength(h, s[q..]).None?
    decreases |s| - p
  {
    if HeadingLength(h, s[p..]).Some? then Some((p, HeadingLength(h, s[p..]).value))
    else
      var n := p + SpanOut(s[p..], Among({'\n'}));
      SpanOutRun(s[p..], Among({'\n'}));
      assert forall q :: p < q <= n ==> !LineStart(s, q) by {
        forall q | p < q <= n ensures !LineStart(s, q) {
          assert s[q - 1] == s[p..][q - 1 - p];
        }
      }
      if n == |s| then None
      else
        assert s[n] == s[p..][n - p];
        FindHeading(h, s, n + 1)
  }

  /** `re.sub(pattern, "", s, 1)` for a title pattern: the first match, if
      any, is cut out and the rest is kept as it is. */
  function RemoveHeading(h: Heading, s: string): (r: string)
    ensures FindHeading(h, s, 0).None? ==> r == s
    ensures FindHeading(h, s, 0).Some? ==> Cut(s, FindHeading(h, s, 0).value.0, FindHeading(h, s, 0).value.1) == r
  {
    var f := FindHeading(h, s, 0);
    if f.None? then s else Cut(s, f.value.0, f.value.1)
  }

  /** `s` without the `n` characters from `q`. */
  function Cut(s: string, q: nat, n: nat): (r: string)
    requires q + n <= |s|
    ensures |r| == |s| - n && r[..q] == s[..q] && r[q..] == s[q + n..]
  {
    s[..q] + s[q + n..]
  }

  /** The title at the first line start that has one is the one removed. */
  lemma {:induction false} RemoveHeadingFirst(h: Heading, s: string, q: nat, n: nat)
    requires q <= |s| && LineStart(s, q) && HeadingLength(h, s[q..]) == Some(n)
    requires forall q' :: 0 <= q' < q && LineStart(s, q') ==> HeadingLength(h, s[q'..]).None?
    ensures RemoveHeading(h, s) == s[..q] + s[q + n..]
  {
    var f := FindHeading(h, s, 0);
    assert f.Some? && f.value.0 <= q;
    var q0 := f.value.0;
    assert HeadingLength(h, s[q0..]).Some?;
    assert q0 == q;
    assert RemoveHeading(h, s) == Cut(s, q, n);
  }

  // ----------------------------------------------------------- cover image

  /** What a leading cover-image line opens with. */
  const CoverTag: string := "![cover_image]"

  /** `s[c..]` is what is left once the first line of `s` and its '\n' are
      gone (everything, when `s` has no '\n'). */
  predicate AfterFirstLine(s: string, c: nat) {
    (c == |s| && '\n' !in s) ||
    (0 < c <= |s| && s[c - 1] == '\n' && '\n' !in s[..c - 1])
  }

  /** A text that opens with the cover-image tag loses its first line;
      any other text is kept. */
  function DropCover(s: string): (r: string)
    ensures !StartsWith(s, CoverTag) ==> r == s
    ensures StartsWith(s, CoverTag) ==> |r| < |s| && r == s[|s| - |r|..] && AfterFirstLine(s, |s| - |r|)
  {
    if !StartsWith(s, CoverTag) then s
    else
      var pos := SpanOut(s, Among({'\n'}));
      SpanOutRun(s, Among({'\n'}));
      if pos == |s| then [] else s[pos + 1..]
  }

  // ------------------------------------------------------- read-more lines

  /** A line holding this is dropped whole. */
  const ReadMore: string := "阅读原文"

  /** The lines that do not mention ReadMore, in order. */
  function KeepLines(lines: seq<string>): (kept: seq<string>)
    ensures IsSubseq(kept, lines)
    ensures forall l :: l in kept <==> l in lines && !Contains(l, ReadMore)
    ensures (forall k :: 0 <= k < |lines| ==> !Contains(lines[k], ReadMore)) ==> kept == lines
  {
    if lines == [] then []
    else
      var rest := KeepLines(lines[1..]);
      assert lines == [lines[0]] + lines[1..];
      if Contains(lines[0], ReadMore) then rest
      else
        assert ([lines[0]] + rest)[1..] == rest;
        [lines[0]] + rest
  }

  /** Each kept line is kept as often as it occurs. */
  lemma {:induction false} KeepLinesCounts(lines: seq<string>)
    ensures forall l :: multiset(KeepLines(lines))[l]
                     == if Contains(l, ReadMore) then 0 else multiset(lines)[l]
  {
    if lines != [] {
      KeepLinesCounts(lines[1..]);
      assert lines == [lines[0]] + lines[1..];
    }
  }

  /** The text's lines without those mentioning ReadMore, joined by '\n'. */
  function DropReadMore(s: string): string {
    Join(KeepLines(SplitLines(s)), "\n")
  }

  /** No ReadMore is left, not even across a line boundary. */
  lemma {:induction false} ReadMoreGone(s: string)
    ensures !Contains(DropReadMore(s), ReadMore)
  {
    var kept := KeepLines(SplitLines(s));
    forall k | 0 <= k < |kept| ensures !Contains(kept[k], ReadMore) {
      assert kept[k] in kept;
    }
    JoinAvoids(kept, ReadMore);
  }

  /** Text with '\n' as its only line boundary and no ReadMore comes back
      as it was, less a final '\n'. */
  lemma {:induction false} DropReadMoreKeeps(s: string)
    requires OnlyNewlines(s) && !Contains(s, ReadMore)
    ensures DropReadMore(s) == DropFinalNewline(s)
  {
    LinesAvoid(s, ReadMore);
    SplitLinesJoin(s);
  }

  // ---------------------------------------------------------------- promos

  /** The promotional phrases, as the alternatives of one escaped regex. */
  const Promos: seq<string> := [
    "拿起手机，搜索微信公众号“长宁房管”，住房相关政策，重点信息一手掌握，赶紧动动手指关注我们吧！",
    "拿起手机，搜索微信公众号“长宁房管”，住房保障重要政策，重点信息一手掌握，赶紧动动手指关注我们吧！",
    "房友们，点上方蓝色**“长宁房管”**关注我们，点文末**“在看”、“赞”**提高阅读优先权，及时了解住房相关政策，掌握一手重点信息。快来关注我们吧！",
    "[长宁房管](javascript:void\\(0\\);)",
    "[阅读原文](javascript:;)",
    "**扫描二维码 下载查看**",
    "修改于",
    "点击照片查看更多"
  ]

  lemma {:induction false} PromosWellFormed()
    ensures WellFormed(AnyLiteral(Promos))
  {
  }

  /** Text holding no promotional phrase is kept as it is. */
  lemma {:induction false} NoPromoUnchanged(s: string)
    requires forall k :: 0 <= k < |Promos| ==> !Contains(s, Promos[k])
    ensures Delete(AnyLiteral(Promos), s) == s
  {
    PromosWellFormed();
    AnyLiteralAbsent(Promos, s);
  }

  /** The read-more link among the phrases never matches: its lines are
      gone before the phrases are deleted. */
  lemma {:induction false} ReadMorePromoNeverMatches(s: string)
    ensures !Contains(DropReadMore(s), Promos[4])
  {
    ReadMoreGone(s);
    assert OccursAt(Promos[4], ReadMore, 1);
    if Contains(DropReadMore(s), Promos[4]) {
      ContainsWithin(DropReadMore(s), Promos[4], ReadMore, 1);
    }
  }

  // ----------------------------------------------------------------- marks

  /** The characters deleted one after the other. */
  const Marks: set<char> := {'*', '〓', '▼'}

  /** `replace('*', '')`, `replace('〓', '')`, `replace('▼', '')` in turn:
      each filters its character out and keeps the rest in order. */
  function DeleteMarks(s: string): string {
    Without(Without(Without(s, '*'), '〓'), '▼')
  }

  /** The filter is what deleting the three one-character literals, in
      that order, does. */
  lemma {:induction false} DeleteMarksIsReplace(s: string)
    ensures DeleteMarks(s) == Delete(Literal("▼"), Delete(Literal("〓"), Delete(Literal("*"), s)))
  {
    var a := Delete(Literal("*"), s);
    var b := Delete(Literal("〓"), a);
    DeleteCharIsWithout('*', s);
    DeleteCharIsWithout('〓', a);
    DeleteCharIsWithout('▼', b);
  }

  /** The marks are gone and every other character is still there. */
  lemma {:induction false} DeleteMarksMembers(s: string)
    ensures forall c :: c in DeleteMarks(s) <==> c in s && c !in Marks
  {
    var a := Without(s, '*');
    var b := Without(a, '〓');
    WithoutMembers(s, '*');
    WithoutMembers(a, '〓');
    WithoutMembers(b, '▼');
  }

  /** Filtering `c` out of `x + [m] + y`, with `c` absent from both sides:
      `m` goes when it is `c` and stays otherwise. */
  lemma {:induction false} WithoutAround(x: string, m: char, y: string, c: char)
    requires c !in x && c !in y
    ensures m == c ==> Without(x + [m] + y, c) == x + y
    ensures m != c ==> Without(x + [m] + y, c) == x + [m] + y
  {
    WithoutAppend(x + [m], y, c);
    WithoutAppend(x, [m], c);
    WithoutAbsent(x, c);
    WithoutAbsent(y, c);
    assert [m][1..] == [];
    if m == c {
      assert Without([m], c) == [];
      assert x + [] == x;
    } else {
      assert Without([m], c) == [m];
    }
  }

  /** A mark between two mark-free pieces is deleted and the pieces join. */
  lemma {:induction false} MarkRejoins(x: string, y: string, m: char)
    requires m in Marks
    requires forall c :: c in Marks ==> c !in x && c !in y
    ensures DeleteMarks(x + [m] + y) == x + y
  {
    var t := x + [m] + y;
    var a := Without(t, '*');
    var b := Without(a, '〓');
    assert DeleteMarks(t) == Without(b, '▼');
    assert '〓' !in x + y && '▼' !in x + y;
    WithoutAround(x, m, y, '*');
    if m == '*' {
      WithoutAbsent(x + y, '〓');
      WithoutAbsent(x + y, '▼');
    } else {
      WithoutAround(x, m, y, '〓');
      if m == '〓' {
        WithoutAbsent(x + y, '▼');
      } else {
        WithoutAround(x, m, y, '▼');
      }
    }
  }

  /** A line holding 阅读*原文 passes the read-more filter; the mark is
      deleted only afterwards, and the word is whole again. */
  lemma {:induction false} SplitReadMoreSurvives()
    ensures !Contains("阅读*原文", ReadMore)
    ensures DeleteMarks("阅读*原文") == ReadMore
  {
    MarkSplitsWord("阅读", "原文", '*');
    MarkRejoins("阅读", "原文", '*');
    assert "阅读*原文" == "阅读" + ['*'] + "原文";
  }

  /** A mark inside the two-character halves of ReadMore hides the word. */
  lemma {:induction false} MarkSplitsWord(x: string, y: string, c: char)
    requires x + y == ReadMore && |x| == 2 && c !in ReadMore
    ensures !Contains(x + [c] + y, ReadMore)
  {
    var t := x + [c] + y;
    assert |t| == 5 && t[2] == c;
    forall i: nat | i <= |t| ensures !OccursAt(t, ReadMore, i) {
      if i <= 1 {
        assert t[i..i + 4][2 - i] == t[2];
      }
    }
  }

  // ------------------------------------------------------------ blank runs

  /** Whitespace other than '\n'. */
  const InlineSpaces: set<char> := SpaceChars - {'\n'}

  /** Where the match of `\n(\s*\n)+` at the '\n' opening `s` ends: just
      after the last '\n' of the whitespace run that follows it, or at 1
      when that run holds no '\n' and nothing matches. */
  function BlankRunEnd(s: string): (m: nat)
    requires s != []
    ensures 1 <= m <= |s|
  {
    var w := SpanIn(s[1..], Spaces);
    1 + KeepRight(s[1..1 + w], Among(InlineSpaces))
  }

  /** Before the first '\n' of `t`, if there is one, stands a visible
      character. */
  predicate FirstLineVisible(t: string)
    decreases |t|
  {
    t == [] || (t[0] != '\n' && (!IsSpace(t[0]) || FirstLineVisible(t[1..])))
  }

  /** Inline whitespace up to `n`, then a visible character or the end. */
  lemma {:induction false} InlineThenVisible(t: string, n: nat)
    requires n <= |t| && forall k :: 0 <= k < n ==> t[k] in InlineSpaces
    requires n < |t| ==> !IsSpace(t[n])
    ensures FirstLineVisible(t)
    decreases n
  {
    if n > 0 {
      assert t[0] in InlineSpaces;
      forall k | 0 <= k < n - 1 ensures t[1..][k] in InlineSpaces {
        assert t[1..][k] == t[k + 1];
      }
      if n - 1 < |t| - 1 {
        assert t[1..][n - 1] == t[n];
      }
      InlineThenVisible(t[1..], n - 1);
    } else if t != [] {
      assert IsSpace('\n');
    }
  }

  /** Every '\n' of such a text has a visible character before it. */
  lemma {:induction false} FirstLineVisibleAt(t: string, j: nat)
    requires FirstLineVisible(t) && j < |t| && t[j] == '\n'
    ensures !AllSpace(t[..j])
    decreases |t|
  {
    assert t[0] != '\n';
    if IsSpace(t[0]) {
      FirstLineVisibleAt(t[1..], j - 1);
      var k :| 0 <= k < j - 1 && !IsSpace(t[1..][..j - 1][k]);
      assert t[..j][k + 1] == t[1..][..j - 1][k];
    } else {
      assert t[..j][0] == t[0];
    }
  }

  /** Between any two '\n' of `s` stands a visible character: no line
      between two line breaks is empty or whitespace only. */
  predicate NoBlankLine(s: string) {
    forall i, j :: 0 <= i < j < |s| && s[i] == '\n' && s[j] == '\n' ==> !AllSpace(s[i + 1..j])
  }

  /** The match skips only whitespace, ends just after a '\n', and leaves a
      text whose first line break has a visible character before it. */
  lemma {:induction false} BlankRunEndRun(s: string)
    requires s != [] && s[0] == '\n'
    ensures AllSpace(s[1..BlankRunEnd(s)])
    ensures BlankRunEnd(s) > 1 ==> s[BlankRunEnd(s) - 1] == '\n'
    ensures FirstLineVisible(s[BlankRunEnd(s)..])
  {
    var w := SpanIn(s[1..], Spaces);
    var u := s[1..1 + w];
    var m := BlankRunEnd(s);
    SpanInRun(s[1..], Spaces);
    KeepRightRun(u, Among(InlineSpaces));
    forall k | 1 <= k < 1 + w ensures IsSpace(s[k]) {
      assert s[k] == s[1..][k - 1];
    }
    forall k | 0 <= k < m - 1 ensures IsSpace(s[1..m][k]) {
      assert s[1..m][k] == s[k + 1];
    }
    if m > 1 {
      assert s[m - 1] == u[m - 2];
    }
    forall k | m <= k < 1 + w ensures s[k] in InlineSpaces {
      assert s[k] == u[k - 1];
    }
    if 1 + w < |s| {
      assert s[1 + w] == s[1..][w];
    }
    VisibleAfterRun(s, m, 1 + w);
  }

  /** Inline whitespace from `m` to `e`, then a visible character or the
      end: the text from `m` has a visible first line. */
  lemma {:induction false} VisibleAfterRun(s: string, m: nat, e: nat)
    requires m <= e <= |s| && forall k :: m <= k < e ==> s[k] in InlineSpaces
    requires e < |s| ==> !IsSpace(s[e])
    ensures FirstLineVisible(s[m..])
  {
    var t := s[m..];
    forall k | 0 <= k < e - m ensures t[k] in InlineSpaces {
      assert t[k] == s[m + k];
    }
    if e - m < |t| {
      assert t[e - m] == s[e];
    }
    InlineThenVisible(t, e - m);
  }

  /** `re.sub(r'\n(\s*\n)+', '\n', s)`: each '\n' followed by whitespace
      holding further '\n's becomes one '\n', and the scan resumes after
      the match. */
  function Collapse(s: string): string
    decreases |s|
  {
    if s == [] then []
    else if s[0] != '\n' then [s[0]] + Collapse(s[1..])
    else "\n" + Collapse(s[BlankRunEnd(s)..])
  }

  /** The collapse only deletes characters: the result is a subsequence. */
  lemma {:induction false} CollapseSubseq(s: string)
    ensures IsSubseq(Collapse(s), s)
    decreases |s|
  {
    if s != [] {
      if s[0] != '\n' {
        var rest := Collapse(s[1..]);
        CollapseSubseq(s[1..]);
        assert ([s[0]] + rest)[1..] == rest;
      } else {
        var m := BlankRunEnd(s);
        var rest := Collapse(s[m..]);
        CollapseSubseq(s[m..]);
        assert s[1..][m - 1..] == s[m..];
        SubseqOfSuffix(rest, s[1..], m - 1);
        assert ("\n" + rest)[1..] == rest;
      }
    }
  }

  /** A character other than '\n' in front keeps the lines non-blank. */
  lemma {:induction false} NoBlankCons(c: char, t: string)
    requires c != '\n' && NoBlankLine(t)
    ensures NoBlankLine([c] + t)
  {
    var s := [c] + t;
    forall i, j | 0 <= i < j < |s| && s[i] == '\n' && s[j] == '\n' ensures !AllSpace(s[i + 1..j]) {
      assert s[i] == t[i - 1] && s[j] == t[j - 1];
      assert s[i + 1..j] == t[i..j - 1];
    }
  }

  /** A '\n' in front keeps the lines non-blank when the first line of `t`
      has a visible character. */
  lemma {:induction false} NoBlankNewline(t: string)
    requires NoBlankLine(t) && FirstLineVisible(t)
    ensures NoBlankLine("\n" + t)
  {
    var s := "\n" + t;
    forall i, j | 0 <= i < j < |s| && s[i] == '\n' && s[j] == '\n' ensures !AllSpace(s[i + 1..j]) {
      assert s[j] == t[j - 1];
      if i == 0 {
        FirstLineVisibleAt(t, j - 1);
        assert s[1..j] == t[..j - 1];
      } else {
        assert s[i] == t[i - 1];
        assert s[i + 1..j] == t[i..j - 1];
      }
    }
  }

  /** The first-line property survives the collapse. */
  lemma {:induction false} CollapseKeepsFirstLine(t: string)
    requires FirstLineVisible(t)
    ensures FirstLineVisible(Collapse(t))
    decreases |t|
  {
    if t != [] {
      assert t[0] != '\n';
      var r := [t[0]] + Collapse(t[1..]);
      assert Collapse(t) == r && r[1..] == Collapse(t[1..]);
      if IsSpace(t[0]) {
        CollapseKeepsFirstLine(t[1..]);
      }
    }
  }

  /** After the collapse no line between two line breaks is blank. */
  lemma {:induction false} CollapseNoBlank(s: string)
    ensures NoBlankLine(Collapse(s))
    decreases |s|
  {
    if s != [] {
      if s[0] != '\n' {
        CollapseNoBlank(s[1..]);
        NoBlankCons(s[0], Collapse(s[1..]));
      } else {
        var m := BlankRunEnd(s);
        BlankRunEndRun(s);
        CollapseNoBlank(s[m..]);
        CollapseKeepsFirstLine(s[m..]);
        NoBlankNewline(Collapse(s[m..]));
      }
    }
  }

  /** The visible characters of a text, in order. */
  function Visible(s: string): string {
    if s == [] then [] else (if IsSpace(s[0]) then [] else [s[0]]) + Visible(s[1..])
  }

  /** A whitespace prefix adds nothing visible. */
  lemma {:induction false} VisibleSkipsSpaces(s: string, m: nat)
    requires m <= |s| && AllSpace(s[..m])
    ensures Visible(s) == Visible(s[m..])
    decreases m
  {
    if m > 0 {
      assert IsSpace(s[..m][0]);
      var tail := s[1..][..m - 1];
      forall k | 0 <= k < m - 1 ensures IsSpace(tail[k]) {
        assert tail[k] == s[..m][k + 1];
      }
      VisibleSkipsSpaces(s[1..], m - 1);
      assert s[1..][m - 1..] == s[m..];
    }
  }

  /** The collapse deletes whitespace only: the visible text is unchanged. */
  lemma {:induction false} CollapseKeepsVisible(s: string)
    ensures Visible(Collapse(s)) == Visible(s)
    decreases |s|
  {
    if s != [] {
      if s[0] != '\n' {
        CollapseKeepsVisible(s[1..]);
        assert ([s[0]] + Collapse(s[1..]))[1..] == Collapse(s[1..]);
      } else {
        var m := BlankRunEnd(s);
        CollapseKeepsVisible(s[m..]);
        assert ("\n" + Collapse(s[m..]))[1..] == Collapse(s[m..]);
        VisibleRun(s);
      }
    }
  }

  /** The whitespace a blank-line run skips holds nothing visible. */
  lemma {:induction false} VisibleRun(s: string)
    requires s != [] && s[0] == '\n'
    ensures Visible(s) == Visible(s[BlankRunEnd(s)..])
  {
    var m := BlankRunEnd(s);
    BlankRunEndRun(s);
    forall k | 0 <= k < m ensures IsSpace(s[..m][k]) {
      if k > 0 {
        assert s[..m][k] == s[1..m][k - 1];
      }
    }
    VisibleSkipsSpaces(s, m);
  }

  /** The slice of a text without blank lines has none either. */
  lemma {:induction false} NoBlankLineSlice(s: string, a: nat, b: nat)
    requires a <= b <= |s| && NoBlankLine(s)
    ensures NoBlankLine(s[a..b])
  {
    var t := s[a..b];
    forall i, j | 0 <= i < j < |t| && t[i] == '\n' && t[j] == '\n' ensures !AllSpace(t[i + 1..j]) {
      assert t[i] == s[a + i] && t[j] == s[a + j];
      var x, y := t[i + 1..j], s[a + i + 1..a + j];
      assert |x| == |y| && forall k :: 0 <= k < |x| ==> x[k] == y[k];
      assert x == y;
    }
  }

  /** In a text without blank lines nothing matches at a '\n'. */
  lemma {:induction false} NoBlankRunEnd(s: string)
    requires s != [] && s[0] == '\n' && NoBlankLine(s)
    ensures BlankRunEnd(s) == 1
  {
    var w := SpanIn(s[1..], Spaces);
    var u := s[1..1 + w];
    SpanInRun(s[1..], Spaces);
    KeepRightRun(u, Among(InlineSpaces));
    forall p | 0 <= p < w ensures u[p] in InlineSpaces {
      var v := s[1..p + 1];
      forall k | 0 <= k < p ensures IsSpace(v[k]) {
        assert v[k] == u[k];
      }
      assert u[p] == s[p + 1];
    }
  }

  /** Text without blank lines is left as it is: collapsing twice is
      collapsing once. */
  lemma {:induction false} CollapseFixed(s: string)
    requires NoBlankLine(s)
    ensures Collapse(s) == s
    decreases |s|
  {
    if s != [] {
      NoBlankLineSlice(s, 1, |s|);
      assert s[1..|s|] == s[1..];
      if s[0] == '\n' {
        NoBlankRunEnd(s);
      }
      CollapseFixed(s[1..]);
    }
  }

  // ------------------------------------------------------------ visible lines

  /** The lines of a text that hold a visible character, in order. */
  function VisibleLines(s: string): seq<string> {
    NonBlank(SplitChar(s, '\n'))
  }

  /** A text of whitespace only has no visible line. */
  lemma {:induction false} NoVisibleLines(u: string)
    requires AllSpace(u)
    ensures VisibleLines(u) == []
    decreases |u|
  {
    var i := SpanOut(u, Among({'\n'}));
    var ps := SplitChar(u, '\n');
    if i < |u| {
      AllInSlice(u, 0, i, Spaces);
      AllInSlice(u, i + 1, |u|, Spaces);
      NoVisibleLines(u[i + 1..]);
      assert ps == [u[..i]] + SplitChar(u[i + 1..], '\n');
      assert ps[1..] == SplitChar(u[i + 1..], '\n');
    } else {
      assert ps == [u] && ps[1..] == [];
    }
    assert NonBlank(ps) == NonBlank(ps[1..]);
  }

  /** Whitespace that ends with '\n' in front of a text adds no visible line. */
  lemma {:induction false} BlankSkip(u: string, z: string)
    requires AllSpace(u) && (u == [] || u[|u| - 1] == '\n')
    ensures VisibleLines(u + z) == VisibleLines(z)
  {
    if u == [] {
      assert u + z == z;
    } else {
      var v := u[..|u| - 1];
      assert u + z == v + ['\n'] + z;
      SplitCharJoin(v, '\n', z);
      NonBlankAppend(SplitChar(v, '\n'), SplitChar(z, '\n'));
      AllInSlice(u, 0, |u| - 1, Spaces);
      NoVisibleLines(v);
    }
  }

  /** The lines of a line `p` followed by '\n' and `c`. */
  lemma {:induction false} LineThenRest(p: string, c: string)
    requires '\n' !in p
    ensures VisibleLines(p + ['\n'] + c) == NonBlank([p]) + VisibleLines(c)
  {
    SplitCharAt(p, '\n', c);
    NonBlankAppend([p], SplitChar(c, '\n'));
  }

  /** The blank lines of a run add no visible line. */
  lemma {:induction false} RunSkip(t: string)
    requires t != [] && t[0] == '\n'
    ensures VisibleLines(t[1..]) == VisibleLines(t[BlankRunEnd(t)..])
  {
    var m := BlankRunEnd(t);
    BlankRunEndRun(t);
    assert t[1..] == t[1..m] + t[m..];
    if m > 1 {
      assert t[1..m][m - 2] == t[m - 1];
    }
    BlankSkip(t[1..m], t[m..]);
  }

  /** A blank-line run at a '\n': the lines of the text are the line before
      it and the lines after the run. */
  lemma {:induction false} LinesAtRun(p: string, t: string)
    requires '\n' !in p && t != [] && t[0] == '\n'
    ensures VisibleLines(p + t) == NonBlank([p]) + VisibleLines(t[BlankRunEnd(t)..])
  {
    assert p + t == p + ['\n'] + t[1..];
    LineThenRest(p, t[1..]);
    RunSkip(t);
  }

  /** A character other than '\n' is kept in front of the collapsed rest. */
  lemma {:induction false} CollapseCons(p: string, t: string)
    requires t != [] && t[0] != '\n'
    ensures p + Collapse(t) == p + [t[0]] + Collapse(t[1..])
    ensures p + t == p + [t[0]] + t[1..]
  {
    assert Collapse(t) == [t[0]] + Collapse(t[1..]);
  }

  /** One step of CollapseLines at a character other than '\n'. */
  lemma {:induction false} CollapseLinesCons(p: string, t: string)
    requires t != [] && t[0] != '\n'
    requires VisibleLines(p + [t[0]] + Collapse(t[1..])) == VisibleLines(p + [t[0]] + t[1..])
    ensures VisibleLines(p + Collapse(t)) == VisibleLines(p + t)
  {
    CollapseCons(p, t);
  }

  /** One step of CollapseLines at a '\n'. */
  lemma {:induction false} CollapseLinesRun(p: string, t: string)
    requires '\n' !in p && t != [] && t[0] == '\n'
    requires VisibleLines(Collapse(t[BlankRunEnd(t)..])) == VisibleLines(t[BlankRunEnd(t)..])
    ensures VisibleLines(p + Collapse(t)) == VisibleLines(p + t)
  {
    var c := Collapse(t[BlankRunEnd(t)..]);
    assert p + Collapse(t) == p + ['\n'] + c;
    LineThenRest(p, c);
    LinesAtRun(p, t);
  }

  /** The collapse removes blank lines only: the visible lines of a text
      behind a line start `p` are the same before and after. */
  lemma {:induction false} CollapseLines(p: string, t: string)
    requires '\n' !in p
    ensures VisibleLines(p + Collapse(t)) == VisibleLines(p + t)
    decreases |t|
  {
    if t == [] {
      assert Collapse(t) == [] && p + t == p;
    } else if t[0] != '\n' {
      CollapseLines(p + [t[0]], t[1..]);
      CollapseLinesCons(p, t);
    } else {
      var rest := t[BlankRunEnd(t)..];
      CollapseLines([], rest);
      assert [] + Collapse(rest) == Collapse(rest) && [] + rest == rest;
      CollapseLinesRun(p, t);
    }
  }

  /** Collapsing keeps every visible line, in order. */
  lemma {:induction false} CollapseKeepsLines(s: string)
    ensures VisibleLines(Collapse(s)) == VisibleLines(s)
  {
    CollapseLines([], s);
    assert [] + Collapse(s) == Collapse(s) && [] + s == s;
  }

  /** The collapse keeps the first and the last character, so a run of
      blank lines at either end of the text still leaves one line break
      there. */
  lemma {:induction false} CollapseEnds(s: string)
    ensures Collapse(s) == [] <==> s == []
    ensures s != [] ==> Collapse(s)[0] == s[0]
    ensures s != [] ==> Collapse(s)[|Collapse(s)| - 1] == s[|s| - 1]
    decreases |s|
  {
    if s != [] {
      if s[0] != '\n' {
        if |s| > 1 {
          CollapseEnds(s[1..]);
        }
      } else {
        var m := BlankRunEnd(s);
        BlankRunEndRun(s);
        if m < |s| {
          CollapseEnds(s[m..]);
        }
      }
    }
  }

  /** Whitespace in front of a line does not matter once lines are stripped. */
  lemma {:induction false} StripHead(v: string, y: string, rest: seq<string>)
    requires AllSpace(v)
    ensures StripEach(NonBlank([v + y] + rest)) == StripEach(NonBlank([y] + rest))
  {
    assert ([v + y] + rest)[1..] == rest && ([y] + rest)[1..] == rest;
    if AllSpace(y) {
      forall k | 0 <= k < |v + y| ensures IsSpace((v + y)[k]) {
        if k < |v| { assert (v + y)[k] == v[k]; } else { assert (v + y)[k] == y[k - |v|]; }
      }
    } else {
      var j :| 0 <= j < |y| && !IsSpace(y[j]);
      assert (v + y)[|v| + j] == y[j];
      StripLeadingSpaces(v, y);
      assert StripEach(NonBlank([v + y] + rest))[1..] == StripEach(NonBlank(rest));
      assert StripEach(NonBlank([y] + rest))[1..] == StripEach(NonBlank(rest));
    }
  }

  /** Whitespace behind a line does not matter once lines are stripped. */
  lemma {:induction false} StripTail(y: string, w: string)
    requires AllSpace(w)
    ensures StripEach(NonBlank([y + w])) == StripEach(NonBlank([y]))
  {
    assert [y + w][1..] == [] && [y][1..] == [];
    if AllSpace(y) {
      forall k | 0 <= k < |y + w| ensures IsSpace((y + w)[k]) {
        if k < |y| { assert (y + w)[k] == y[k]; } else { assert (y + w)[k] == w[k - |y|]; }
      }
    } else {
      var j :| 0 <= j < |y| && !IsSpace(y[j]);
      assert (y + w)[j] == y[j];
      StripTrailingSpaces(y, w);
    }
  }

  /** Leading whitespace of a text changes no stripped visible line. */
  lemma {:induction false} LeadingBlank(w: string, z: string)
    requires AllSpace(w)
    ensures StripEach(VisibleLines(w + z)) == StripEach(VisibleLines(z))
  {
    var n := KeepRight(w, Among(InlineSpaces));
    KeepRightRun(w, Among(InlineSpaces));
    var u := w[..n];
    var v := w[n..];
    AllInSlice(w, 0, n, Spaces);
    AllInSlice(w, n, |w|, Spaces);
    if n > 0 {
      assert IsSpace(w[n - 1]) && w[n - 1] !in InlineSpaces;
      assert u[n - 1] == '\n';
    }
    assert '\n' !in v by {
      forall k | 0 <= k < |v| ensures v[k] != '\n' {
        assert v[k] == w[n + k];
      }
    }
    assert w + z == u + (v + z);
    BlankSkip(u, v + z);
    SplitCharPrefix(v, z, '\n');
    var ps := SplitChar(z, '\n');
    assert ps == [ps[0]] + ps[1..];
    StripHead(v, ps[0], ps[1..]);
  }

  /** Trailing whitespace of a text changes no stripped visible line. */
  lemma {:induction false} TrailingBlank(z: string, w: string)
    requires AllSpace(w)
    ensures StripEach(VisibleLines(z + w)) == StripEach(VisibleLines(z))
  {
    var n := SpanIn(w, Among(InlineSpaces));
    SpanInRun(w, Among(InlineSpaces));
    var u := w[..n];
    AllInSlice(w, 0, n, Spaces);
    assert '\n' !in u by {
      forall k | 0 <= k < |u| ensures u[k] != '\n' {
        assert u[k] == w[k];
      }
    }
    assert VisibleLines(z + w) == VisibleLines(z + u) by {
      if n < |w| {
        assert IsSpace(w[n]) && w[n] !in InlineSpaces;
        assert z + w == (z + u) + ['\n'] + w[n + 1..];
        SplitCharJoin(z + u, '\n', w[n + 1..]);
        NonBlankAppend(SplitChar(z + u, '\n'), SplitChar(w[n + 1..], '\n'));
        AllInSlice(w, n + 1, |w|, Spaces);
        NoVisibleLines(w[n + 1..]);
        assert VisibleLines(z + u) + [] == VisibleLines(z + u);
      } else {
        assert u == w;
      }
    }
    SplitCharExtend(z, u, '\n');
    var ps := SplitChar(z, '\n');
    var init := ps[..|ps| - 1];
    var last := ps[|ps| - 1];
    assert ps == init + [last];
    NonBlankAppend(init, [last + u]);
    NonBlankAppend(init, [last]);
    StripEachAppend(NonBlank(init), NonBlank([last + u]));
    StripEachAppend(NonBlank(init), NonBlank([last]));
    StripTail(last, u);
  }

  /** Stripping the ends of a text changes no stripped visible line. */
  lemma {:induction false} StripKeepsLines(g: string)
    ensures StripEach(VisibleLines(Strip(g, Spaces))) == StripEach(VisibleLines(g))
  {
    StripSlice(g, Spaces);
    StripDropsOnly(g, Spaces);
    var i := SpanIn(g, Spaces);
    var r := Strip(g, Spaces);
    var a := g[..i];
    var b := g[i + |r|..];
    assert g == a + (r + b);
    LeadingBlank(a, r + b);
    TrailingBlank(r, b);
  }

  // ------------------------------------------------------------ the whole

  /** The first half of clean_content: the first Setext title, then the
      first ATX title, a leading cover-image line, the read-more lines and
      the promotional phrases go. */
  function Prepare(content: string): string {
    var a := RemoveHeading(Setext, content);
    var b := RemoveHeading(Atx, a);
    var c := DropCover(b);
    var d := DropReadMore(c);
    PromosWellFormed();
    Delete(AnyLiteral(Promos), d)
  }

  /** The second half: the marks go, blank-line runs collapse, and the
      ends are stripped. */
  function Finish(e: string): string {
    Strip(Collapse(DeleteMarks(e)), Spaces)
  }

  /** clean_content. */
  function CleanContent(content: string): string {
    Finish(Prepare(content))
  }

  /** Stripping the ends keeps the text free of blank lines. */
  lemma {:induction false} StripNoBlank(g: string)
    requires NoBlankLine(g)
    ensures NoBlankLine(Strip(g, Spaces))
  {
    StripSlice(g, Spaces);
    var i := SpanIn(g, Spaces);
    NoBlankLineSlice(g, i, i + |Strip(g, Spaces)|);
  }

  /** The finished text holds no mark, no blank line and no whitespace at
      either end. */
  lemma {:induction false} FinishClean(e: string)
    ensures forall c :: c in Marks ==> c !in Finish(e)
    ensures NoBlankLine(Finish(e))
    ensures Strip(Finish(e), Spaces) == Finish(e)
  {
    var f := DeleteMarks(e);
    var g := Collapse(f);
    assert Finish(e) == Strip(g, Spaces);
    DeleteMarksMembers(e);
    CollapseSubseq(f);
    SubseqMembers(g, f);
    StripMembers(g, Spaces);
    CollapseNoBlank(f);
    StripNoBlank(g);
    StripIdempotent(g, Spaces);
  }

  /** Finishing keeps every visible line of the unmarked text, in order,
      up to whitespace at its two ends. */
  lemma {:induction false} FinishKeepsLines(e: string)
    ensures StripEach(VisibleLines(Finish(e))) == StripEach(VisibleLines(DeleteMarks(e)))
  {
    var f := DeleteMarks(e);
    var g := Collapse(f);
    assert Finish(e) == Strip(g, Spaces);
    StripKeepsLines(g);
    CollapseKeepsLines(f);
  }

  /** The cleaned article holds no mark, no blank line and no whitespace at
      either end, and its visible lines are those of the prepared text with
      the marks deleted. */
  lemma {:induction false} CleanContentClean(content: string)
    ensures forall c :: c in Marks ==> c !in CleanContent(content)
    ensures NoBlankLine(CleanContent(content))
    ensures Strip(CleanContent(content), Spaces) == CleanContent(content)
    ensures StripEach(VisibleLines(CleanContent(content)))
         == StripEach(VisibleLines(DeleteMarks(Prepare(content))))
  {
    FinishClean(Prepare(content));
    FinishKeepsLines(Prepare(content));
  }
}
