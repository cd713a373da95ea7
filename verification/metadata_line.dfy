/** preprocess/author.py, one line of the backward scan: the metadata
    pattern, the blank test, and the quoted form of a block line. */
module MetadataLine {
  import opened Text

  /** The keywords of the metadata pattern, in the order of its alternation. */
  const MetaKeywords: seq<string> :=
    ["资料来源", "信息来源", "来源", "撰稿人", "撰稿", "作者", "编辑", "摄影", "校对", "投稿人"]

  /** Characters stripped from a line before it is matched. */
  const MatchMarks: set<char> := {'*', '-', ' ', '_'}

  /** Characters stripped from a block line before it is quoted (no '_'). */
  const QuoteMarks: set<char> := {'*', '-', ' '}

  predicate IsColon(c: char) {
    c == ':' || c == '：'
  }

  /** `.*$` without MULTILINE: no '\n' except possibly as the last character. */
  predicate LineRest(r: string) {
    forall i :: 0 <= i < |r| && r[i] == '\n' ==> i == |r| - 1
  }

  /** `kw\s*[:：].*$` at the start of `t`. */
  predicate KeywordThenColon(t: string, kw: string) {
    StartsWith(t, kw) &&
    var d := |kw| + SpanIn(t[|kw|..], Spaces);
    d < |t| && IsColon(t[d]) && LineRest(t[d + 1..])
  }

  /** Offset of the keyword after the leading `\s*[\*\-]?\s*`. A greedy reading
      is exact: giving back whitespace or the marker never lets a keyword start. */
  function KeywordOffset(s: string): (c: nat)
    ensures c <= |s|
  {
    var a := SpanIn(s, Spaces);
    var b := a + (if a < |s| && (s[a] == '*' || s[a] == '-') then 1 else 0);
    b + SpanIn(s[b..], Spaces)
  }

  /** METADATA_PATTERN.match(s): after the leading whitespace and marker,
      one of the keywords leads to a colon. The regex backtracks into the
      alternation, so the match holds when any alternative does. */
  predicate MetadataPattern(s: string) {
    var t := s[KeywordOffset(s)..];
    exists k :: 0 <= k < |MetaKeywords| && KeywordThenColon(t, MetaKeywords[k])
  }

  /** `s` reads `\s*[\*\-]?\s*kw\s*[:：].*$`: whitespace up to `a`, a marker
      when `b == a + 1`, whitespace up to `p`, `kw` at `p`, whitespace up to
      the colon at `d`, then the rest of one line. */
  predicate KeywordShape(s: string, a: nat, b: nat, p: nat, kw: string, d: nat) {
    a <= b <= a + 1 && b <= p && p + |kw| <= d < |s| &&
    (forall i :: 0 <= i < a ==> IsSpace(s[i])) &&
    (b == a + 1 ==> s[a] == '*' || s[a] == '-') &&
    (forall i :: b <= i < p ==> IsSpace(s[i])) &&
    s[p..p + |kw|] == kw &&
    (forall i :: p + |kw| <= i < d ==> IsSpace(s[i])) &&
    IsColon(s[d]) && LineRest(s[d + 1..])
  }

  /** That shape with keyword `k` of the pattern. */
  predicate MetadataShape(s: string, a: nat, b: nat, p: nat, k: nat, d: nat) {
    k < |MetaKeywords| && KeywordShape(s, a, b, p, MetaKeywords[k], d)
  }

  /** No keyword starts with whitespace or a marker. */
  lemma {:induction false} KeywordStart(k: nat)
    requires k < |MetaKeywords|
    ensures MetaKeywords[k] != [] && !IsSpace(MetaKeywords[k][0])
    ensures MetaKeywords[k][0] != '*' && MetaKeywords[k][0] != '-'
  {
  }

  /** The leading `\s*[\*\-]?\s*` that KeywordOffset skips: whitespace up to
      `a`, the marker when `b == a + 1`, whitespace up to the offset. */
  lemma {:induction false} KeywordOffsetParts(s: string) returns (a: nat, b: nat)
    ensures a <= b <= a + 1 && b <= KeywordOffset(s)
    ensures forall i :: 0 <= i < a ==> IsSpace(s[i])
    ensures b == a + 1 ==> s[a] == '*' || s[a] == '-'
    ensures forall i :: b <= i < KeywordOffset(s) ==> IsSpace(s[i])
  {
    a := SpanIn(s, Spaces);
    b := a + (if a < |s| && (s[a] == '*' || s[a] == '-') then 1 else 0);
    SpanInRun(s, Spaces);
    SpanInRun(s[b..], Spaces);
    forall i | b <= i < KeywordOffset(s) ensures IsSpace(s[i]) {
      assert s[b..][i - b] == s[i];
    }
  }

  /** Whitespace, at most one marker and whitespace, before a character that
      is neither: KeywordOffset stops at that character. */
  lemma {:induction false} KeywordOffsetAt(s: string, a: nat, b: nat, p: nat)
    requires a <= b <= a + 1 && b <= p < |s|
    requires forall i :: 0 <= i < a ==> IsSpace(s[i])
    requires b == a + 1 ==> s[a] == '*' || s[a] == '-'
    requires forall i :: b <= i < p ==> IsSpace(s[i])
    requires !IsSpace(s[p]) && s[p] != '*' && s[p] != '-'
    ensures KeywordOffset(s) == p
  {
    if b == a + 1 {
      SpanInIs(s, Spaces, a);
      SpanInIs(s[b..], Spaces, p - b);
    } else {
      SpanInIs(s, Spaces, p);
      SpanInIs(s[p..], Spaces, 0);
    }
  }

  /** The pieces of `kw\s*[:：].*$`: the keyword, whitespace up to the colon
      at `e`, then the rest of one line. */
  lemma {:induction false} KeywordThenColonParts(t: string, kw: string) returns (e: nat)
    requires KeywordThenColon(t, kw)
    ensures |kw| <= e < |t| && t[..|kw|] == kw
    ensures forall i :: |kw| <= i < e ==> IsSpace(t[i])
    ensures IsColon(t[e]) && LineRest(t[e + 1..])
  {
    e := |kw| + SpanIn(t[|kw|..], Spaces);
    SpanInRun(t[|kw|..], Spaces);
    forall i | |kw| <= i < e ensures IsSpace(t[i]) {
      assert t[|kw|..][i - |kw|] == t[i];
    }
  }

  /** Those pieces make `kw\s*[:：].*$`. */
  lemma {:induction false} KeywordThenColonAt(t: string, kw: string, e: nat)
    requires |kw| <= e < |t| && t[..|kw|] == kw
    requires forall i :: |kw| <= i < e ==> IsSpace(t[i])
    requires IsColon(t[e]) && LineRest(t[e + 1..])
    ensures KeywordThenColon(t, kw)
  {
    assert !IsSpace(t[e]);
    SpanInIs(t[|kw|..], Spaces, e - |kw|);
  }

  /** The same pieces for `kw\s*[:：].*$` at `p`, read from `s` itself. */
  lemma {:induction false} KeywordThenColonPartsAt(s: string, p: nat, kw: string) returns (d: nat)
    requires p <= |s| && KeywordThenColon(s[p..], kw)
    ensures p + |kw| <= d < |s| && s[p..p + |kw|] == kw
    ensures forall i :: p + |kw| <= i < d ==> IsSpace(s[i])
    ensures IsColon(s[d]) && LineRest(s[d + 1..])
  {
    var t := s[p..];
    var e := KeywordThenColonParts(t, kw);
    d := p + e;
    forall i | p + |kw| <= i < d ensures IsSpace(s[i]) {
      assert t[i - p] == s[i];
    }
    assert t[e + 1..] == s[d + 1..];
  }

  /** Keyword `kw` leading to a colon at the keyword offset gives the shape. */
  lemma {:induction false} KeywordMatchHasShape(s: string, kw: string) returns (a: nat, b: nat, d: nat)
    requires KeywordThenColon(s[KeywordOffset(s)..], kw)
    ensures KeywordShape(s, a, b, KeywordOffset(s), kw, d)
  {
    a, b := KeywordOffsetParts(s);
    d := KeywordThenColonPartsAt(s, KeywordOffset(s), kw);
  }

  /** The shape with a keyword that opens with neither whitespace nor a
      marker: the keyword offset lands on it and it leads to the colon. */
  lemma {:induction false} KeywordShapeMatches(s: string, a: nat, b: nat, p: nat, kw: string, d: nat)
    requires KeywordShape(s, a, b, p, kw, d)
    requires kw != [] && !IsSpace(kw[0]) && kw[0] != '*' && kw[0] != '-'
    ensures KeywordOffset(s) == p
    ensures KeywordThenColon(s[p..], kw)
  {
    assert s[p] == kw[0];
    KeywordOffsetAt(s, a, b, p);
    var t := s[p..];
    forall i | |kw| <= i < d - p ensures IsSpace(t[i]) {
      assert t[i] == s[p + i];
    }
    assert t[..|kw|] == kw;
    assert t[d - p] == s[d] && t[d - p + 1..] == s[d + 1..];
    KeywordThenColonAt(t, kw, d - p);
  }

  /** A match has the shape, with the keyword at KeywordOffset. */
  lemma {:induction false} MetadataMatchHasShape(s: string)
    requires MetadataPattern(s)
    ensures exists a, b, k, d :: MetadataShape(s, a, b, KeywordOffset(s), k, d)
  {
    var k :| 0 <= k < |MetaKeywords| && KeywordThenColon(s[KeywordOffset(s)..], MetaKeywords[k]);
    var a, b, d := KeywordMatchHasShape(s, MetaKeywords[k]);
    assert MetadataShape(s, a, b, KeywordOffset(s), k, d);
  }

  /** Every text of the shape matches, and the keyword search starts at the
      keyword: the greedy reading of the leading whitespace is exact. */
  lemma {:induction false} MetadataShapeMatches(s: string, a: nat, b: nat, p: nat, k: nat, d: nat)
    requires MetadataShape(s, a, b, p, k, d)
    ensures KeywordOffset(s) == p
    ensures MetadataPattern(s)
  {
    KeywordStart(k);
    KeywordShapeMatches(s, a, b, p, MetaKeywords[k], d);
  }

  /** The test one line passes to join the block: strip whitespace, then the
      marks `*- _`, then match. */
  predicate IsMetadataLine(line: string) {
    MetadataPattern(Strip(Strip(line, Spaces), Among(MatchMarks)))
  }

  /** `line.strip()` is empty. */
  predicate Blank(line: string) {
    AllSpace(line)
  }

  /** What the backward scan sees in one line. */
  datatype LineKind = MetaLine | BlankLine | TextLine

  /** The scan tests for metadata first, then for an empty stripped line. */
  function KindOf(line: string): LineKind {
    if IsMetadataLine(line) then MetaLine else if Blank(line) then BlankLine else TextLine
  }

  /** A blank line never matches: every keyword needs a visible character. */
  lemma {:induction false} MetadataNotBlank(line: string)
    requires IsMetadataLine(line)
    ensures !Blank(line)
  {
    if Blank(line) {
      StripEnds(line, Spaces);
    }
  }

  /** The quoted form of one block line. */
  function QuoteLine(line: string): (r: string)
    ensures StartsWith(r, "> ") && EndsWith(r, "\n")
  {
    var r := "> " + Strip(Strip(line, Spaces), Among(QuoteMarks)) + "\n";
    assert r[..2] == "> ";
    r
  }

  /** The test applied to one line of the scan: `line.strip()`, then
      `.strip('*- _')`, then the metadata pattern. */
  method ClassifyLine(line: string) returns (lineContent: string, isMetadata: bool)
    ensures isMetadata <==> KindOf(line) == MetaLine
    ensures !isMetadata ==> (lineContent == [] <==> KindOf(line) == BlankLine)
  {
    lineContent := Strip(line, Spaces);
    var cleanedLine := Strip(lineContent, Among(MatchMarks));
    isMetadata := MetadataPattern(cleanedLine);
    StripEnds(line, Spaces);
  }

  /** A line whose first character is no whitespace, no mark and no keyword
      start is not metadata. */
  lemma {:induction false} ForeignStartNotMetadata(line: string)
    requires line != [] && !IsSpace(line[0]) && line[0] !in MatchMarks
    requires forall k :: 0 <= k < |MetaKeywords| ==> MetaKeywords[k][0] != line[0]
    ensures !IsMetadataLine(line)
  {
    StripKeepsFirst(line, Spaces);
    var lineContent := Strip(line, Spaces);
    assert lineContent[0] == line[0];
    StripKeepsFirst(lineContent, Among(MatchMarks));
    var cleaned := Strip(lineContent, Among(MatchMarks));
    assert cleaned[0] == line[0];
    assert KeywordOffset(cleaned) == 0;
    assert cleaned[0..] == cleaned;
  }

  /** A quoted line is never taken for metadata. */
  lemma {:induction false} QuoteLineNotMetadata(line: string)
    ensures !IsMetadataLine(QuoteLine(line))
  {
    var q := QuoteLine(line);
    assert q[0] == '>';
    ForeignStartNotMetadata(q);
  }
}
